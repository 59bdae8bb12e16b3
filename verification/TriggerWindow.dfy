/**
 A window that only a trigger reads is never linked to its target, so the trigger observes no values:
 an accepted program whose alarm the evaluator never raises.
 */
module TriggerWindow {
  import opened Values
  import opened Sequences
  import opened Graphs
  import opened Clocks
  import opened Lowering
  import opened Pipeline
  import opened Offline
  import opened Progress
  import opened TypedRuns
  import opened WindowLogs
  import opened SpecWindows
  import opened Controller
  import opened AcceptedPrograms
  import opened CountingWindow
  import TypedWindows
  import OneFrequency
  import ZeroPauses
  import opened ScheduleCycles
  import D = Dependencies
  import E = Expressions
  import FreshAccesses
  import M = Evaluator
  import BufferSizes
  import Histories
  import OneStep
  import Schedules

  /** `output a @1Hz := true` and `trigger a && x.aggregate(over: 5s, using: count) > 3`. */
  function Alarm(): Program {
    Program(1, [Output(E.LoadConstant(E.BoolC(true)), RealTime(HERTZ), false),
                Output(Condition(), RealTime(HERTZ), true)], [CountOfX()])
  }

  function Condition(): E.Expr {
    E.ArithLog(E.And, [E.StreamAccess(E.OutRef(0), E.Sync),
                       E.ArithLog(E.Gt, [E.WindowLookup(0), E.LoadConstant(E.UIntC(3))])])
  }

  function ReadOfA(): D.Dep {
    Edge(2, 1, D.Access(D.Expression, D.Discrete(0)))
  }

  lemma PairEdges(names: D.Naming, a: E.Expr, b: E.Expr, node: nat)
    ensures D.EdgesOfAll(names, [a, b], node) == D.EdgesOf(names, a, node) + D.EdgesOf(names, b, node)
  {
    assert [a, b][1..] == [b] && [b][1..] == [];
    assert D.EdgesOfAll(names, [b], node) == D.EdgesOf(names, b, node) + [];
  }

  lemma PairReads(a: E.Expr, b: E.Expr)
    ensures E.ReadsAll([a, b]) == E.Reads(a) + E.Reads(b)
    ensures D.KeptReadsAll([a, b]) == D.KeptReads(a) + D.KeptReads(b)
    ensures E.SyncReadsAll([a, b]) == E.SyncReads(a) + E.SyncReads(b)
  {
    assert [a, b][1..] == [b] && [b][1..] == [];
    assert E.ReadsAll([b]) == E.Reads(b) + {} && D.KeptReadsAll([b]) == D.KeptReads(b) + {};
    assert E.SyncReadsAll([b]) == E.SyncReads(b) + {};
  }

  lemma ConditionEdges(names: D.Naming)
    requires names.inputs == 1 && |names.windows| == 1 && names.windows[0] == E.InRef(0)
    ensures D.EdgesOf(names, Condition(), 2) == [ReadOfA(), ReadOfWindow(2)]
  {
    var a, count, three := E.StreamAccess(E.OutRef(0), E.Sync), E.WindowLookup(0), E.LoadConstant(E.UIntC(3));
    PairEdges(names, count, three, 2);
    PairEdges(names, a, E.ArithLog(E.Gt, [count, three]), 2);
    assert D.EdgesOf(names, E.ArithLog(E.Gt, [count, three]), 2) == [ReadOfWindow(2)] + [];
  }

  lemma AlarmGraph()
    ensures DependencyGraph(Alarm()) == Graph(3, [ReadOfA(), ReadOfWindow(2)])
  {
    var p := Alarm();
    assert EdgesUpTo(p, 1) == EdgesUpTo(p, 0) + [];
    ConditionEdges(NamesOf(p));
    assert EdgesUpTo(p, 2) == EdgesUpTo(p, 1) + [ReadOfA(), ReadOfWindow(2)];
  }

  lemma ConditionReads()
    ensures E.Reads(Condition()) == {E.Now(E.OutRef(0)), E.Window(0)} == D.KeptReads(Condition())
    ensures E.SyncReads(Condition()) == {E.OutRef(0)}
  {
    var a, count, three := E.StreamAccess(E.OutRef(0), E.Sync), E.WindowLookup(0), E.LoadConstant(E.UIntC(3));
    PairReads(count, three);
    PairReads(a, E.ArithLog(E.Gt, [count, three]));
  }

  lemma AlarmAccess(o: nat, a: E.Access)
    requires o < 2 && a in E.Reads(Alarm().outputs[o].expr)
    ensures o == 1 && (a == E.Now(E.OutRef(0)) || a == E.Window(0)) && KnownAccess(Alarm(), a)
  {
    ConditionReads();
  }

  lemma AlarmChecked()
    ensures Checked(Alarm())
  {
    AlarmGraph();
    CountFaithful();
    forall o, a | 0 <= o < 2 && a in E.Reads(Alarm().outputs[o].expr) ensures KnownAccess(Alarm(), a) {
      AlarmAccess(o, a);
    }
  }

  lemma AlarmSyncRead(o: nat, x: E.StreamRef)
    requires o < 2 && x in E.SyncReads(Alarm().outputs[o].expr)
    ensures o == 1 && x == E.OutRef(0) && E.Now(x) in D.KeptReads(Alarm().outputs[o].expr)
  {
    ConditionReads();
  }

  lemma AlarmSyncAccepted(p: Program, o: nat, x: E.StreamRef)
    requires p == Alarm() && o < 2 && x in E.SyncReads(p.outputs[o].expr)
    ensures FreshAccesses.AcceptedAccess(p, p.outputs[o].clock, x)
  {
    AlarmSyncRead(o, x);
    SameClock();
  }

  lemma SameClock()
    ensures IsValid<E.StreamRef>(RealTime(HERTZ), RealTime(HERTZ)) == Just(true)
  {
  }

  lemma AlarmReadsWindow()
    ensures !TriggersReadNoWindow(Alarm())
  {
    ConditionReads();
    assert Alarm().outputs[1].isTrigger && E.Window(0) in E.Reads(Alarm().outputs[1].expr) && E.Window(0).Window?;
  }

  lemma AlarmAcyclic()
    ensures Acyclic(D.SameInstantLinks(DependencyGraph(Alarm()).edges))
  {
    AlarmGraph();
    DescendingAcyclic(D.SameInstantLinks([ReadOfA(), ReadOfWindow(2)]));
  }

  lemma AlarmAccesses(p: Program)
    requires p == Alarm() && Checked(p)
    ensures FreshAccesses.Accepted(p)
  {
    forall o, x | 0 <= o < |p.outputs| && x in E.SyncReads(p.outputs[o].expr)
      ensures FreshAccesses.AcceptedAccess(p, p.outputs[o].clock, x)
    {
      AlarmSyncAccepted(p, o, x);
    }
  }

  lemma AlarmKeepsReads(p: Program)
    requires p == Alarm()
    ensures NoSyncDropped(p)
  {
    forall o, x | 0 <= o < |p.outputs| && x in E.SyncReads(p.outputs[o].expr)
      ensures E.Now(x) in D.KeptReads(p.outputs[o].expr)
    {
      AlarmSyncRead(o, x);
    }
  }

  /** The program passes all checks, nothing is projected away, and its trigger reads a window. */
  lemma AlarmAccepted()
    ensures FreshAccesses.Accepted(Alarm()) && NoSyncDropped(Alarm()) && !TriggersReadNoWindow(Alarm())
    ensures Acyclic(D.SameInstantLinks(DependencyGraph(Alarm()).edges))
  {
    AlarmChecked();
    AlarmAcyclic();
    AlarmReadsWindow();
    AlarmAccesses(Alarm());
    AlarmKeepsReads(Alarm());
  }

  // ---------- what the evaluator does ----------

  /** The comparison compares. */
  ghost predicate Compares(prims: E.Prims) {
    forall a: nat, b: nat :: prims.binary(E.Gt, Unsigned(a), Unsigned(b)) == Ok(Bool(a > b))
  }

  lemma ConditionValue(prims: E.Prims, c: E.Ctx, n: nat)
    requires Compares(prims) && c.window(0) == Ok(Unsigned(n))
    ensures var v := E.EvalExpr(prims, Condition(), c);
            && (v.Ok? && n <= 3 ==> v.value == Bool(false))
            && (v.Ok? && c.isFresh(E.OutRef(0)) && c.latest(E.OutRef(0)) == Bool(true) ==> v.value == Bool(n > 3))
  {
    var more := Condition().operands[1];
    assert E.EvalExpr(prims, more, c) == prims.binary(E.Gt, Unsigned(n), Unsigned(3));
  }

  /** The specification has the outputs and the window of the program. */
  ghost predicate IsAlarm(spec: M.Spec) {
    && |spec.outputs| == 2 && spec.windows == [CountOfX()]
    && spec.outputs[0].expr == E.LoadConstant(E.BoolC(true)) && !spec.outputs[0].isTrigger
    && spec.outputs[1].expr == Condition() && spec.outputs[1].isTrigger
  }

  /** The window is linked to nothing: only the trigger reads it. */
  lemma AlarmLowered(p: Program, spec: M.Spec, table: map<nat, nat>, requirements: seq<BufferSizes.StorageRequirement>)
    requires p == Alarm() && IsLowered(p, spec, table, requirements)
    ensures IsAlarm(spec) && |spec.inputs| == 1 && 0 !in spec.linked
  {
    assert spec.outputs[0] == LowerOutput(p, requirements, 0) && spec.outputs[1] == LowerOutput(p, requirements, 1);
    NeverLinked(p);
  }

  lemma NeverLinked(p: Program)
    requires p == Alarm()
    ensures 0 !in LinkedWindows(p)
  {
    LinkedMembers(p, 2, 0);
  }

  lemma UnlinkedCount(spec: M.Spec, past: Histories.Trace, row: Histories.Row, o: nat)
    requires spec.windows == [CountOfX()] && 0 !in spec.linked
    ensures Histories.DeclarativeCtx(spec, past, row, o).window(0) == Ok(Unsigned(0))
  {
    assert spec.windows[0] == CountOfX() && M.Source(spec, 0) == Nothing;
    CountValue([], row.ts);
  }

  lemma NothingReported(spec: M.Spec, outs: map<nat, Value>, ts: Time)
    requires IsAlarm(spec) && (1 in outs ==> outs[1] == Bool(false))
    ensures OneStep.Reports(spec, outs, outs.Keys, ts) == {}
  {
  }

  lemma SilentValue(spec: M.Spec, prims: E.Prims, past: Histories.Trace, row: Histories.Row)
    requires IsAlarm(spec) && 0 !in spec.linked && Compares(prims)
    ensures var v := E.EvalExpr(prims, spec.outputs[1].expr, Histories.DeclarativeCtx(spec, past, row, 1));
            v.Ok? ==> v.value == Bool(false)
  {
    UnlinkedCount(spec, past, row, 1);
    ConditionValue(prims, Histories.DeclarativeCtx(spec, past, row, 1), 0);
  }

  /** In a step of the lowered specification the trigger does not fire. */
  lemma SilentStep(spec: M.Spec, prims: E.Prims, past: Histories.Trace, step: M.Step, row: Histories.Row)
    requires IsAlarm(spec) && 0 !in spec.linked && Compares(prims)
    requires Histories.SatisfiesEquations(spec, prims, past, step, row)
    ensures OneStep.Reports(spec, row.outs, row.outs.Keys, row.ts) == {}
  {
    SilentValue(spec, prims, past, row);
    NothingReported(spec, row.outs, row.ts);
  }

  lemma {:induction false} SilentTrace(spec: M.Spec, prims: E.Prims, run: seq<M.Step>, t: Histories.Trace)
    requires IsAlarm(spec) && 0 !in spec.linked && Compares(prims)
    requires Histories.IsModel(spec, prims, run, t)
    ensures Histories.Fired(spec, t) == multiset{}
    decreases |run|
  {
    if run != [] {
      var n := |run| - 1;
      SilentTrace(spec, prims, run[..n], t[..n]);
      SilentStep(spec, prims, t[..n], run[n], t[n]);
    }
  }

  lemma RanSilent(spec: M.Spec, prims: E.Prims, st: M.State, events: seq<M.Step>, deadlines: seq<Schedules.Deadline>)
    requires IsAlarm(spec) && 0 !in spec.linked && Compares(prims) && Ran(spec, spec, prims, st, events, deadlines)
    ensures st.fired == multiset{}
  {
    var trace :| FullMerge(trace, events, deadlines) && Computes(spec, spec, prims, st, trace);
    var t :| Histories.IsModel(spec, prims, trace, t) && Histories.Holding(spec, st, t);
    SilentTrace(spec, prims, trace, t);
  }

  // ---------- every state that is reached ----------

  /** Nothing has been reported, and the window has accepted nothing. */
  ghost predicate Quiet(spec: M.Spec, st: M.State) {
    && M.Shaped(spec, st) && |st.logs| == 1 && st.fired == multiset{}
    && AcceptedIn(st.logs[0]) == [] && LoggedBy(st.logs[0], st.last)
  }

  /** Quiet, and its window updated to the time. */
  ghost predicate QuietAt(spec: M.Spec, st: M.State, ts: Time) {
    Quiet(spec, st) && st.last == Just(ts) && UpToDate(0, st.logs[0], ts)
  }

  lemma NothingFed(spec: M.Spec, logs: seq<seq<Operation>>, x: E.StreamRef, v: Value, ts: Time)
    requires IsAlarm(spec) && 0 !in spec.linked && |logs| == 1
    ensures M.Feed(spec, logs, x, v, ts) == logs
  {
    assert M.Source(spec, 0) == Nothing;
  }

  lemma UpdateQuiet(spec: M.Spec, st: M.State, ts: Time)
    requires IsAlarm(spec) && Quiet(spec, st) && st.last == Just(ts)
    ensures QuietAt(spec, M.PrepareEvaluation(st, ts), ts)
  {
    AcceptedSnoc(st.logs[0], Update(ts));
    InTimeSnoc(0, st.logs[0], Update(ts));
    assert M.PrepareEvaluation(st, ts).logs[0] == st.logs[0] + [Update(ts)];
  }

  lemma {:induction false} InputsQuiet(spec: M.Spec, st: M.State, vals: seq<Value>, n: nat, ts: Time)
    requires IsAlarm(spec) && 0 !in spec.linked && Quiet(spec, st) && n <= |vals|
    ensures var r := M.AcceptInputs(spec, st, vals, n, ts);
            r.Ok? ==> Quiet(spec, r.value) && r.value.last == st.last
    decreases n
  {
    if n > 0 {
      InputsQuiet(spec, st, vals, n - 1, ts);
      var before := M.AcceptInputs(spec, st, vals, n - 1, ts);
      if before.Ok? && !vals[n - 1].None? && n - 1 < |spec.inputs| {
        NothingFed(spec, before.value.logs, E.InRef(n - 1), vals[n - 1], ts);
      }
    }
  }

  /** The condition of the trigger is never true. */
  lemma QuietCondition(spec: M.Spec, prims: E.Prims, st: M.State, ts: Time)
    requires IsAlarm(spec) && Compares(prims) && QuietAt(spec, st, ts)
    ensures var v := E.EvalExpr(prims, Condition(), M.MachineCtx(spec, st, ts));
            v.Ok? ==> v.value == Bool(false)
  {
    CountFaithful();
    CountValue([], ts);
    assert spec.windows[0] == CountOfX();
    assert spec.windows[0].report(st.logs[0], ts) == CountOfX().value(AcceptedIn(st.logs[0]), ts);
    ConditionValue(prims, M.MachineCtx(spec, st, ts), 0);
  }

  lemma OutputQuiet(spec: M.Spec, prims: E.Prims, st: M.State, o: nat, ts: Time)
    requires IsAlarm(spec) && 0 !in spec.linked && Compares(prims) && QuietAt(spec, st, ts)
    ensures var r := M.EvalStream(spec, M.Interpreted(spec, prims), st, o, ts);
            r.Ok? ==> QuietAt(spec, r.value, ts)
  {
    QuietCondition(spec, prims, st, ts);
    var r := M.EvalStream(spec, M.Interpreted(spec, prims), st, o, ts);
    if r.Ok? {
      NothingFed(spec, st.logs, E.OutRef(o), M.Interpreted(spec, prims)(o, M.MachineCtx(spec, st, ts)).value, ts);
    }
  }

  lemma {:induction false} OrderQuiet(spec: M.Spec, prims: E.Prims, st: M.State, order: seq<nat>, ts: Time)
    requires IsAlarm(spec) && 0 !in spec.linked && Compares(prims) && QuietAt(spec, st, ts)
    ensures var r := M.EvalStreams(spec, M.Interpreted(spec, prims), st, order, ts);
            r.Ok? ==> QuietAt(spec, r.value, ts)
    decreases |order|
  {
    if order != [] {
      OutputQuiet(spec, prims, st, order[0], ts);
      var next := M.EvalStream(spec, M.Interpreted(spec, prims), st, order[0], ts);
      if next.Ok? {
        OrderQuiet(spec, prims, next.value, order[1..], ts);
      }
    }
  }

  lemma {:induction false} LayerQuiet(spec: M.Spec, prims: E.Prims, st: M.State, layer: seq<nat>, ts: Time)
    requires IsAlarm(spec) && 0 !in spec.linked && Compares(prims) && QuietAt(spec, st, ts)
    ensures var r := M.EvalLayer(spec, M.Interpreted(spec, prims), st, layer, ts);
            r.Ok? ==> QuietAt(spec, r.value, ts)
    decreases |layer|
  {
    if layer != [] {
      OutputQuiet(spec, prims, st, layer[0], ts);
      var next := M.EvalIfActive(spec, M.Interpreted(spec, prims), st, layer[0], ts);
      if next.Ok? {
        LayerQuiet(spec, prims, next.value, layer[1..], ts);
      }
    }
  }

  lemma {:induction false} LayersQuiet(spec: M.Spec, prims: E.Prims, st: M.State, layers: seq<seq<nat>>, ts: Time)
    requires IsAlarm(spec) && 0 !in spec.linked && Compares(prims) && QuietAt(spec, st, ts)
    ensures var r := M.EvalLayers(spec, M.Interpreted(spec, prims), st, layers, ts);
            r.Ok? ==> QuietAt(spec, r.value, ts)
    decreases |layers|
  {
    if layers != [] {
      LayerQuiet(spec, prims, st, layers[0], ts);
      var next := M.EvalLayer(spec, M.Interpreted(spec, prims), st, layers[0], ts);
      if next.Ok? {
        LayersQuiet(spec, prims, next.value, layers[1..], ts);
      }
    }
  }

  lemma StartQuiet(spec: M.Spec, st: M.State, step: M.Step)
    requires IsAlarm(spec) && 0 !in spec.linked && Quiet(spec, st) && M.InOrder(st.last, step.ts)
    ensures var prepared := Histories.PreparedState(spec, st, step);
            prepared.Ok? ==> QuietAt(spec, prepared.value, step.ts)
  {
    var cleared := M.ClearFreshness(st).(last := Just(step.ts));
    match step
    case Event(vals, ts) =>
      InputsQuiet(spec, cleared, vals, |vals|, ts);
      var accepted := M.AcceptInputs(spec, cleared, vals, |vals|, ts);
      if accepted.Ok? {
        UpdateQuiet(spec, accepted.value, ts);
      }
    case Deadline(_, ts) => UpdateQuiet(spec, cleared, ts);
  }

  lemma StepQuiet(spec: M.Spec, prims: E.Prims, st: M.State, step: M.Step)
    requires IsAlarm(spec) && 0 !in spec.linked && Compares(prims) && Quiet(spec, st)
    ensures var r := M.RunStep(spec, M.Interpreted(spec, prims), st, step);
            r.Ok? ==> Quiet(spec, r.value)
  {
    if M.InOrder(st.last, step.ts) {
      StartQuiet(spec, st, step);
      var prepared := Histories.PreparedState(spec, st, step);
      if prepared.Ok? {
        LayersQuiet(spec, prims, prepared.value, spec.layers, step.ts);
        if step.Deadline? {
          OrderQuiet(spec, prims, prepared.value, step.due, step.ts);
        }
      }
    }
  }

  lemma {:induction false} RunQuiet(spec: M.Spec, prims: E.Prims, run: seq<M.Step>)
    requires IsAlarm(spec) && 0 !in spec.linked && Compares(prims)
    ensures var r := M.RunAll(spec, M.Interpreted(spec, prims), run);
            r.Ok? ==> Quiet(spec, r.value)
    decreases |run|
  {
    if run != [] {
      RunQuiet(spec, prims, run[..|run| - 1]);
      var before := M.RunAll(spec, M.Interpreted(spec, prims), run[..|run| - 1]);
      if before.Ok? {
        StepQuiet(spec, prims, before.value, run[|run| - 1]);
      }
    }
  }

  /**
   The alarm is never raised: not in the state after any steps, whatever they are, nor in the next
   step after any outputs have been evaluated in it, whether or not the rest of the run goes through.
   */
  lemma AlarmSilent(spec: M.Spec, prims: E.Prims, run: seq<M.Step>, step: M.Step, order: seq<nat>)
    requires IsAlarm(spec) && 0 !in spec.linked && Compares(prims)
    requires M.RunAll(spec, M.Interpreted(spec, prims), run).Ok?
    ensures var st := M.RunAll(spec, M.Interpreted(spec, prims), run).value;
            && st.fired == multiset{}
            && (M.InOrder(st.last, step.ts) && Histories.PreparedState(spec, st, step).Ok? ==>
                  var prepared := Histories.PreparedState(spec, st, step).value;
                  var within := M.EvalStreams(spec, M.Interpreted(spec, prims), prepared, order, step.ts);
                  prepared.fired == multiset{} && (within.Ok? ==> within.value.fired == multiset{}))
  {
    RunQuiet(spec, prims, run);
    var st := M.RunAll(spec, M.Interpreted(spec, prims), run).value;
    if M.InOrder(st.last, step.ts) {
      StartQuiet(spec, st, step);
      var prepared := Histories.PreparedState(spec, st, step);
      if prepared.Ok? {
        OrderQuiet(spec, prims, prepared.value, order, step.ts);
      }
    }
  }

  // ---------- what the program says ----------

  /** If the window is linked the alarm is raised exactly if `x` had more than three values in the last five seconds. */
  lemma DeclaredStep(spec: M.Spec, prims: E.Prims, past: Histories.Trace, step: M.Step, row: Histories.Row)
    requires IsAlarm(spec) && 0 in spec.linked && Compares(prims)
    requires Histories.SatisfiesEquations(spec, prims, past, step, row) && 0 in row.outs && 1 in row.outs
    ensures row.outs[1] == Bool(|InRange(FIVE_SECONDS, Histories.TimedHistory(past + [row], E.InRef(0)), row.ts)| > 3)
  {
    LinkedCount(spec, past, row, 1);
    AlwaysTrue(spec, prims, past, step, row);
    ConditionValue(prims, Histories.DeclarativeCtx(spec, past, row, 1),
                   |InRange(FIVE_SECONDS, Histories.TimedHistory(past + [row], E.InRef(0)), row.ts)|);
  }

  lemma AlwaysTrue(spec: M.Spec, prims: E.Prims, past: Histories.Trace, step: M.Step, row: Histories.Row)
    requires IsAlarm(spec) && 0 in row.outs
    requires Histories.SatisfiesEquations(spec, prims, past, step, row)
    ensures var c := Histories.DeclarativeCtx(spec, past, row, 1);
            c.isFresh(E.OutRef(0)) && c.latest(E.OutRef(0)) == Bool(true)
  {
    Histories.HistorySnoc(past, row, E.OutRef(0));
    Histories.LatestSnoc(Histories.History(past, E.OutRef(0)), row.outs[0]);
  }

  // ---------- four values at once ----------

  function OneValue(): M.Step {
    M.Event([Signed(1)], 0)
  }

  ghost predicate FourAtStart(events: seq<M.Step>) {
    |events| == 4 && forall i | 0 <= i < 4 :: events[i] == OneValue()
  }

  lemma FourNumbers(events: seq<M.Step>)
    requires FourAtStart(events)
    ensures forall i | 0 <= i < |events| :: NumberEvent(events[i]) && events[i].Event? && events[i].ts == 0
    ensures TimesAscend(events)
  {
    assert NumberEvent(OneValue()) && OneValue().ts == 0;
  }

  /** After `n` of the events, `x` has had `n` values, all at the start. */
  ghost predicate AtStart(h: seq<Sample>, n: nat) {
    |h| == n && forall i | 0 <= i < n :: h[i].ts == 0
  }

  lemma OneMore(t: Histories.Trace, row: Histories.Row, n: nat)
    requires AtStart(Histories.TimedHistory(t, E.InRef(0)), n) && row.ts == 0
    ensures AtStart(Histories.TimedHistory(t + [row], E.InRef(0)), if 0 in row.ins then n + 1 else n)
  {
    Histories.HistorySnoc(t, row, E.InRef(0));
  }

  lemma ValueArrives(spec: M.Spec, prims: E.Prims, run: seq<M.Step>, t: Histories.Trace, n: nat)
    requires Histories.IsModel(spec, prims, run, t) && n < |run| && run[n] == OneValue()
    ensures |t| == |run| && t[n].ts == 0 && 0 in t[n].ins
  {
    Histories.ModelAt(spec, prims, run, t, n);
    assert Histories.Present(OneValue().vals) == map[0 := Signed(1)];
  }

  lemma {:induction false} ValuesAtStart(spec: M.Spec, prims: E.Prims, run: seq<M.Step>, t: Histories.Trace, n: nat)
    requires Histories.IsModel(spec, prims, run, t) && n <= 4 && |run| == 5
    requires forall i | 0 <= i < 4 :: run[i] == OneValue()
    ensures AtStart(Histories.TimedHistory(t[..n], E.InRef(0)), n)
  {
    if n > 0 {
      ValuesAtStart(spec, prims, run, t, n - 1);
      ValueArrives(spec, prims, run, t, n - 1);
      OneMore(t[..n - 1], t[n - 1], n - 1);
      assert t[..n] == t[..n - 1] + [t[n - 1]];
    }
  }

  lemma {:induction false} AllInRange(h: seq<Sample>)
    requires AtStart(h, |h|)
    ensures InRange(FIVE_SECONDS, h, 0) == h
  {
    if h != [] {
      AllInRange(h[..|h| - 1]);
      assert h == h[..|h| - 1] + [h[|h| - 1]];
    }
  }

  /** What the program says of four values and the deadline at the start: the alarm is raised. */
  lemma AlarmDeclared(spec: M.Spec, prims: E.Prims, events: seq<M.Step>, due: seq<nat>, t: Histories.Trace)
    requires IsAlarm(spec) && 0 in spec.linked && Compares(prims) && 0 in due && 1 in due && FourAtStart(events)
    requires Histories.IsModel(spec, prims, events + [M.Deadline(due, 0)], t)
    ensures (1, 0) in Histories.Fired(spec, t)
  {
    var run := events + [M.Deadline(due, 0)];
    var past, row := t[..4], t[4];
    Histories.ModelAt(spec, prims, run, t, 4);
    FourValues(spec, prims, run, t);
    DeclaredStep(spec, prims, past, run[4], row);
    Raised(spec, t);
  }

  lemma FourValues(spec: M.Spec, prims: E.Prims, run: seq<M.Step>, t: Histories.Trace)
    requires Histories.IsModel(spec, prims, run, t) && |run| == 5 && run[4].Deadline? && run[4].ts == 0
    requires forall i | 0 <= i < 4 :: run[i] == OneValue()
    ensures |InRange(FIVE_SECONDS, Histories.TimedHistory(t[..4] + [t[4]], E.InRef(0)), t[4].ts)| == 4
  {
    Histories.ModelAt(spec, prims, run, t, 4);
    ValuesAtStart(spec, prims, run, t, 4);
    OneMore(t[..4], t[4], 4);
    AllInRange(Histories.TimedHistory(t[..4] + [t[4]], E.InRef(0)));
  }

  lemma Raised(spec: M.Spec, t: Histories.Trace)
    requires IsAlarm(spec) && t != [] && 1 in t[|t| - 1].outs
    requires t[|t| - 1].ts == 0 && t[|t| - 1].outs[1] == Bool(true)
    ensures (1, 0) in Histories.Fired(spec, t)
  {
    var row := t[|t| - 1];
    assert (1, 0) in OneStep.Reports(spec, row.outs, row.outs.Keys, row.ts);
  }

  // ---------- the run ----------

  /** The input is a number, `a` is Boolean, and numbers can be compared. */
  function AlarmTypes(): E.Signature {
    E.Signature((x: E.StreamRef) => if x.InRef? then E.IntT else E.BoolT, _ => E.UIntT, (_, _) => Panic,
                (op: E.ArithLogOp, a: E.Type, b: E.Type) =>
                  if op.Gt? && a.UIntT? && b.UIntT? then Ok(E.BoolT) else Panic,
                (_, _) => Panic, (_, _, _) => Panic)
  }

  lemma AlarmTotal(prims: E.Prims, s: E.Signature)
    requires s == AlarmTypes() && Compares(prims)
    ensures E.TotalPrims(prims, s)
  {
    forall op, v, w, t, u | s.binary(op, t, u).Ok? && E.Matches(v, t) && E.Matches(w, u)
      ensures prims.binary(op, v, w).Ok?
    {
      assert v == Unsigned(v.u) && w == Unsigned(w.u);
    }
  }

  lemma AlarmTyped(spec: M.Spec, prims: E.Prims, s: E.Signature)
    requires IsAlarm(spec) && s == AlarmTypes() && E.TypedPrims(prims, s) && Compares(prims)
    ensures TypedTotal(spec, prims, s)
  {
    AlarmTotal(prims, s);
    AlarmTypesOf(s);
    TypedWindows.CountTyped(E.InRef(0), E.IntT, FIVE_SECONDS, false);
  }

  lemma AlarmTypesOf(s: E.Signature)
    requires s == AlarmTypes()
    ensures E.TypeOf(s, Condition()) == Ok(E.BoolT) && E.TypeOf(s, E.LoadConstant(E.BoolC(true))) == Ok(E.BoolT)
  {
    var a, count, three := E.StreamAccess(E.OutRef(0), E.Sync), E.WindowLookup(0), E.LoadConstant(E.UIntC(3));
    PairTypes(s, count, three);
    PairTypes(s, a, E.ArithLog(E.Gt, [count, three]));
  }

  lemma PairTypes(s: E.Signature, a: E.Expr, b: E.Expr)
    requires E.TypeOf(s, a).Ok? && E.TypeOf(s, b).Ok?
    ensures E.TypesOf(s, [a, b]) == Ok([E.TypeOf(s, a).value, E.TypeOf(s, b).value])
  {
    assert [a, b][1..] == [b] && [b][1..] == [];
    var t, u := E.TypeOf(s, a).value, E.TypeOf(s, b).value;
    assert [u] + [] == [u] && [t] + [u] == [t, u];
    assert E.TypesOf(s, [b]) == Ok([u] + []);
  }

  /** What the program says of the run: in the solution of its equations the alarm is raised. */
  ghost predicate ShouldRaise(spec: M.Spec, prims: E.Prims, events: seq<M.Step>, deadlines: seq<Schedules.Deadline>) {
    exists trace, t :: FullMerge(trace, events, deadlines)
        && Histories.IsModel(Histories.Intended(spec), prims, trace, t)
        && (1, 0) in Histories.Fired(Histories.Intended(spec), t)
  }

  lemma RaisedIfSolvable(spec: M.Spec, prims: E.Prims, events: seq<M.Step>, deadlines: seq<Schedules.Deadline>)
    requires IsAlarm(spec) && Compares(prims) && FourAtStart(events) && Solvable(spec, prims, events, deadlines)
    requires deadlines != [] && PositivePauses(deadlines) && 0 in DueAt(deadlines, 0) && 1 in DueAt(deadlines, 0)
    ensures ShouldRaise(spec, prims, events, deadlines)
  {
    var trace :| FullMerge(trace, events, deadlines) && Histories.HasModel(Histories.Intended(spec), prims, trace);
    FourNumbers(events);
    StartMerge(trace, events, deadlines);
    var t :| Histories.IsModel(Histories.Intended(spec), prims, trace, t);
    AlarmDeclared(Histories.Intended(spec), prims, events, DueAt(deadlines, 0), t);
  }

  lemma AlarmRan(p: Program, spec: M.Spec, table: map<nat, nat>, prims: E.Prims, st: M.State, events: seq<M.Step>,
                 schedule: Option<seq<Schedules.Deadline>>)
    requires p == Alarm() && Checked(p) && Compares(prims) && Realises(p, spec, table, schedule) && schedule.Just?
    requires FourAtStart(events) && AcceptedOutcome(true, p, spec, prims, st, events, schedule.value)
    requires PositivePauses(schedule.value)
    ensures st.fired == multiset{} && ShouldRaise(spec, prims, events, schedule.value)
  {
    var requirements :| IsLowered(p, spec, table, requirements);
    AlarmLowered(p, spec, table, requirements);
    RanSilent(spec, prims, st, events, schedule.value);
    AllDueAtStart(p, table, schedule.value, 0);
    AllDueAtStart(p, table, schedule.value, 1);
    RaisedIfSolvable(spec, prims, events, schedule.value);
  }

  /** The run goes through without raising the alarm, which the program says should be raised. */
  method RunAlarm(prims: E.Prims, events: seq<M.Step>)
    returns (ok: bool, spec: M.Spec, st: M.State, schedule: Option<seq<Schedules.Deadline>>)
    requires E.TypedPrims(prims, AlarmTypes()) && Compares(prims) && FourAtStart(events)
    ensures ok && schedule.Just? && st.fired == multiset{}
    ensures ShouldRaise(spec, prims, events, schedule.value)
  {
    var p := Alarm();
    AlarmConditions(p);
    FourNumbers(events);
    var table;
    ok, spec, table, st, schedule := RunOffline(p, prims, events, 1);
    AlarmTypedFor(p, spec, table, schedule, prims, AlarmTypes(), events);
    AdvancesAlwaysIff(schedule.value);
    AlarmRan(p, spec, table, prims, st, events, schedule);
  }

  lemma AlarmTypedFor(p: Program, spec: M.Spec, table: map<nat, nat>, schedule: Option<seq<Schedules.Deadline>>,
                      prims: E.Prims, s: E.Signature, events: seq<M.Step>)
    requires p == Alarm() && FourAtStart(events) && Checked(p) && Realises(p, spec, table, schedule)
    requires s == AlarmTypes() && E.TypedPrims(prims, s) && Compares(prims)
    ensures TypedFor(spec, prims, events)
  {
    var requirements :| IsLowered(p, spec, table, requirements);
    AlarmLowered(p, spec, table, requirements);
    AlarmTyped(spec, prims, s);
    FourNumbers(events);
    NumberInputs(spec, s, events);
  }

  lemma AlarmScheduled(p: Program)
    requires p == Alarm() && Checked(p)
    ensures !TooManySteps(p) && ReducedPeriods(TimeDrivenOf(p, |p.outputs|))
    ensures ZeroPauses.PairsApart(TimeDrivenOf(p, |p.outputs|))
  {
    assert p.outputs[0].clock.RealTime?;
    OneFrequency.OneFrequencyScheduled(p, HERTZ);
  }

  lemma AlarmConditions(p: Program)
    requires p == Alarm()
    ensures FreshAccesses.Accepted(p) && NoSyncDropped(p) && Acyclic(D.SameInstantLinks(DependencyGraph(p).edges))
    ensures !TooManySteps(p) && ReducedPeriods(TimeDrivenOf(p, |p.outputs|))
    ensures ZeroPauses.PairsApart(TimeDrivenOf(p, |p.outputs|))
  {
    AlarmAccepted();
    AlarmScheduled(p);
  }
}
