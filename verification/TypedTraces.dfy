/**
 On typed inputs the equations of a typed specification with total operators always have a solution,
 and every value in it has its type, whether or not the evaluator gets through.
 */
module TypedTraces {
  import opened Values
  import opened Sequences
  import opened Stores
  import opened WindowLogs
  import opened Evaluator
  import opened Histories
  import opened TypedRuns
  import opened Progress
  import E = Expressions
  import LateReads
  import OneStep
  import Pruning
  import Activations
  import FreshAccesses
  import Controller

  ghost predicate TypedRow(spec: Spec, s: E.Signature, row: Row) {
    forall x | Stored(spec, x) && ValueIn(row, x).Just? :: E.Matches(ValueIn(row, x).value, s.stream(x))
  }

  /** All values of stored streams have the types of their streams. */
  ghost predicate TypedTrace(spec: Spec, s: E.Signature, t: Trace) {
    forall n | 0 <= n < |t| :: TypedRow(spec, s, t[n])
  }

  lemma {:induction false} HistoryTyped(spec: Spec, s: E.Signature, t: Trace, x: E.StreamRef)
    requires TypedTrace(spec, s, t) && Stored(spec, x)
    ensures TypedValues(History(t, x), s.stream(x)) && TypedSamples(TimedHistory(t, x), s.stream(x))
    decreases |t|
  {
    if t != [] {
      var past, row := t[..|t| - 1], t[|t| - 1];
      HistoryTyped(spec, s, past, x);
      assert TypedRow(spec, s, row);
      if ValueIn(row, x).Just? {
        TypedSamplesSnoc(TimedHistory(past, x), Sample(ValueIn(row, x).value, row.ts), s.stream(x));
      }
    }
  }

  // ---------- what an output observes ----------

  /** What can be observed of the stored streams only. */
  function StoredCtx(spec: Spec, c: E.Ctx): E.Ctx {
    E.Ctx((x: E.StreamRef) => if Stored(spec, x) then c.latest(x) else Value.None,
          (x: E.StreamRef) => Stored(spec, x) && c.isFresh(x),
          (x: E.StreamRef, k: nat) => if Stored(spec, x) then c.past(x, k) else Panic,
          c.window)
  }

  /** Every access resolves to a stored stream. */
  predicate Resolved(spec: Spec, a: E.Access) {
    match a
    case Now(x) => Stored(spec, x)
    case Past(x, k) => Stored(spec, x) && 1 <= k < 0x8000
    case Window(w) => w < |spec.windows|
  }

  lemma StoredSuffice(spec: Spec, prims: E.Prims, e: E.Expr, c: E.Ctx)
    requires forall a | a in E.Reads(e) :: Resolved(spec, a)
    ensures E.EvalExpr(prims, e, StoredCtx(spec, c)) == E.EvalExpr(prims, e, c)
  {
    forall a | a in E.Reads(e) ensures E.AgreeOn(a, StoredCtx(spec, c), c) {
      assert Resolved(spec, a);
    }
    E.EvalDependsOnReads(prims, e, StoredCtx(spec, c), c);
  }

  /** What a window has done when an output reads it in the step `row`. */
  function SeenLog(past: Trace, row: Row, o: nat, src: Option<E.StreamRef>): seq<Operation> {
    LogBefore(past, row, src) + (if src == Just(E.OutRef(o)) then [] else OutputAccept(row, src))
  }

  lemma SeenLogMeaning(past: Trace, row: Row, o: nat, src: Option<E.StreamRef>)
    requires Ascending(past + [row])
    ensures UpToDate(0, SeenLog(past, row, o, src), row.ts)
    ensures AcceptedIn(SeenLog(past, row, o, src))
            == SourceHistory(if src == Just(E.OutRef(o)) then past else past + [row], src)
  {
    LogBeforeMeaning(past, row, src);
    SourceHistorySnoc(past, row, src);
    if src == Just(E.OutRef(o)) {
      assert SourceHistory(past, src) + [] == SourceHistory(past, src);
      assert LogBefore(past, row, src) + [] == LogBefore(past, row, src);
    } else {
      MaybeLogged(LogBefore(past, row, src), OutputAccept(row, src), row.ts);
    }
  }

  /** The windows are faithful, never panic on typed values, and their targets are stored. */
  ghost predicate TypedWindows(spec: Spec, s: E.Signature) {
    forall w | 0 <= w < |spec.windows| ::
      var produced := ProducedType(spec, s, spec.windows[w].target);
      && Stored(spec, spec.windows[w].target) && Faithful(spec.windows[w])
      && TotalWindow(spec.windows[w], produced) && TypedWindow(spec.windows[w], produced, s.window(w))
  }

  lemma SourceTyped(spec: Spec, s: E.Signature, t: Trace, w: nat)
    requires TypedTrace(spec, s, t) && w < |spec.windows| && Stored(spec, spec.windows[w].target)
    ensures TypedSamples(SourceHistory(t, Source(spec, w)), ProducedType(spec, s, spec.windows[w].target))
  {
    HistoryTyped(spec, s, t, spec.windows[w].target);
  }

  /** A window over typed values has a value of its type. */
  lemma WindowValueTyped(spec: Spec, s: E.Signature, past: Trace, row: Row, o: nat, w: nat)
    requires TypedWindows(spec, s) && Ascending(past + [row]) && TypedTrace(spec, s, past + [row]) && w < |spec.windows|
    ensures var v := DeclarativeCtx(spec, past, row, o).window(w);
            v.Ok? && E.Matches(v.value, s.window(w))
  {
    var src := Source(spec, w);
    var log := SeenLog(past, row, o, src);
    SeenLogMeaning(past, row, o, src);
    assert TypedTrace(spec, s, past) by {
      assert forall n | 0 <= n < |past| :: (past + [row])[n] == past[n];
    }
    SourceTyped(spec, s, past, w);
    SourceTyped(spec, s, past + [row], w);
    assert spec.windows[w].report(log, row.ts) == spec.windows[w].value(AcceptedIn(log), row.ts);
    assert TypedOutcome(spec.windows[w].report(log, row.ts), s.window(w));
  }

  lemma ElementTyped(vs: seq<Value>, ty: E.Type, k: nat)
    requires TypedValues(vs, ty)
    ensures E.Matches(Latest(vs), E.OptionT(ty)) && (vs != [] ==> E.Matches(Latest(vs), ty))
    ensures k >= 1 ==> E.Matches(KthRecent(vs, k), E.OptionT(ty))
  {
  }

  lemma LookupsTyped(spec: Spec, s: E.Signature, past: Trace, row: Row, o: nat, x: E.StreamRef)
    requires TypedTrace(spec, s, past + [row]) && Stored(spec, x)
    ensures var c := DeclarativeCtx(spec, past, row, o);
            && E.Matches(c.latest(x), E.OptionT(s.stream(x)))
            && (c.isFresh(x) ==> E.Matches(c.latest(x), s.stream(x)))
            && (forall k: nat | k >= 1 :: E.Matches(KthRecent(History(past, x), k), E.OptionT(s.stream(x))))
  {
    HistoryTyped(spec, s, past + [row], x);
    HistorySnoc(past, row, x);
    ElementTyped(History(past + [row], x), s.stream(x), 0);
    assert TypedValues(History(past, x), s.stream(x)) by {
      assert forall v | v in History(past, x) :: v in History(past + [row], x);
    }
    forall k: nat | k >= 1 ensures E.Matches(KthRecent(History(past, x), k), E.OptionT(s.stream(x))) {
      ElementTyped(History(past, x), s.stream(x), k);
    }
  }

  /** What an output observes has the declared types. */
  lemma ObservesTyped(spec: Spec, s: E.Signature, past: Trace, row: Row, o: nat)
    requires TypedWindows(spec, s) && Ascending(past + [row]) && TypedTrace(spec, s, past + [row])
    ensures E.TypedCtx(StoredCtx(spec, DeclarativeCtx(spec, past, row, o)), s)
  {
    var c := StoredCtx(spec, DeclarativeCtx(spec, past, row, o));
    forall x ensures E.Matches(c.latest(x), E.OptionT(s.stream(x)))
      ensures c.isFresh(x) ==> E.Matches(c.latest(x), s.stream(x))
    {
      if Stored(spec, x) {
        LookupsTyped(spec, s, past, row, o, x);
      }
    }
    forall x, k: nat | c.past(x, k).Ok? ensures E.Matches(c.past(x, k).value, E.OptionT(s.stream(x))) {
      LookupsTyped(spec, s, past, row, o, x);
    }
    forall w: nat | c.window(w).Ok? ensures E.Matches(c.window(w).value, s.window(w)) {
      WindowValueTyped(spec, s, past, row, o, w);
    }
  }

  // ---------- solutions of the pruned equations ----------

  /** Every access of every output resolves. */
  ghost predicate AllResolved(spec: Spec) {
    forall o, a | 0 <= o < |spec.outputs| && a in E.Reads(spec.outputs[o].expr) :: Resolved(spec, a)
  }

  lemma ResolvedAddressable(spec: Spec)
    requires AllResolved(spec)
    ensures Addressable(spec)
  {
    forall o, a | 0 <= o < |spec.outputs| && a in E.Reads(spec.outputs[o].expr)
      ensures a.Past? ==> 1 <= a.k < 0x8000
      ensures a.Window? ==> a.w < |spec.windows|
    {
      assert Resolved(spec, a);
    }
  }

  /** A typed specification with total operators whose accesses resolve. */
  ghost predicate Sound(spec: Spec, prims: E.Prims, s: E.Signature) {
    TypedTotal(spec, prims, s) && TypedWindows(spec, s) && AllResolved(spec)
  }

  /** With current values for its synchronous reads, an output has a value. */
  lemma EquationHasValue(spec: Spec, prims: E.Prims, s: E.Signature, past: Trace, row: Row, o: nat)
    requires Sound(spec, prims, s) && Ascending(past + [row]) && TypedTrace(spec, s, past + [row])
    requires o < |spec.outputs|
    requires forall x | x in E.SyncReads(spec.outputs[o].expr) :: Stored(spec, x) && ValueIn(row, x).Just?
    ensures E.EvalExpr(prims, spec.outputs[o].expr, DeclarativeCtx(spec, past, row, o)).Ok?
  {
    var e, c := spec.outputs[o].expr, StoredCtx(spec, DeclarativeCtx(spec, past, row, o));
    ObservesTyped(spec, s, past, row, o);
    forall a | a in E.Reads(e) ensures E.Answered(a, c) {
      assert Resolved(spec, a);
      if a.Window? {
        WindowValueTyped(spec, s, past, row, o, a.w);
      }
    }
    E.EvalProgresses(prims, s, e, c);
    StoredSuffice(spec, prims, e, DeclarativeCtx(spec, past, row, o));
  }

  /** In a step whose order is closed, the synchronous reads of its outputs have current values. */
  lemma SyncReadsCurrent(spec: Spec, step: Step, row: Row, o: nat, x: E.StreamRef)
    requires StepClosed(spec, step) && HasActiveOutputs(spec, step, row) && o in row.outs
    requires o < |spec.outputs| && x in E.SyncReads(spec.outputs[o].expr)
    ensures Stored(spec, x) && ValueIn(row, x).Just?
  {
    var order := StepOrder(spec, step);
    StepOrderElements(spec, step, row);
    assert o in Elements(order);
    var i :| 0 <= i < |order| && order[i] == o;
    assert x.OutRef? ==> x.ix in Elements(order);
  }

  lemma ActiveUnpruned(spec: Spec, step: Step, row: Row)
    ensures HasActiveOutputs(Pruning.Pruned(spec), step, row) <==> HasActiveOutputs(spec, step, row)
  {
    forall o: nat ensures IsActive(Pruning.Pruned(spec), o, row.ins.Keys) <==> IsActive(spec, o, row.ins.Keys) {
    }
  }

  lemma ValueUnpruned(spec: Spec, prims: E.Prims, past: Trace, row: Row, o: nat)
    requires o < |spec.outputs| && E.EvalExpr(prims, spec.outputs[o].expr, DeclarativeCtx(spec, past, row, o)).Ok?
    ensures E.EvalExpr(prims, Pruning.Prune(spec.outputs[o].expr), DeclarativeCtx(Pruning.Pruned(spec), past, row, o))
            == E.EvalExpr(prims, spec.outputs[o].expr, DeclarativeCtx(spec, past, row, o))
  {
    var e := spec.outputs[o].expr;
    var c, d := DeclarativeCtx(spec, past, row, o), DeclarativeCtx(Pruning.Pruned(spec), past, row, o);
    Pruning.PrunedValue(prims, e, c);
    Pruning.PrunedObserves(spec, past, row, o, E.Reads(Pruning.Prune(e)));
    E.EvalDependsOnReads(prims, Pruning.Prune(e), c, d);
  }

  /** A typed row that satisfies the pruned equations satisfies the equations. */
  lemma EquationsUnpruned(spec: Spec, prims: E.Prims, s: E.Signature, past: Trace, step: Step, row: Row)
    requires Sound(spec, prims, s) && StepClosed(spec, step)
    requires Ascending(past + [row]) && TypedTrace(spec, s, past + [row])
    requires SatisfiesEquations(Pruning.Pruned(spec), prims, past, step, row)
    ensures SatisfiesEquations(spec, prims, past, step, row)
  {
    ActiveUnpruned(spec, step, row);
    forall o | o in row.outs
      ensures o < |spec.outputs|
      ensures E.EvalExpr(prims, spec.outputs[o].expr, DeclarativeCtx(spec, past, row, o)) == Ok(row.outs[o])
    {
      forall x | x in E.SyncReads(spec.outputs[o].expr) ensures Stored(spec, x) && ValueIn(row, x).Just? {
        SyncReadsCurrent(spec, step, row, o, x);
      }
      EquationHasValue(spec, prims, s, past, row, o);
      ValueUnpruned(spec, prims, past, row, o);
    }
  }

  ghost predicate AllClosed(spec: Spec, run: seq<Step>) {
    forall n | 0 <= n < |run| :: StepClosed(spec, run[n])
  }

  lemma LastUnpruned(spec: Spec, prims: E.Prims, s: E.Signature, past: Trace, step: Step, row: Row, t: Trace)
    requires Sound(spec, prims, s) && StepClosed(spec, step) && t == past + [row]
    requires TypedTrace(spec, s, t) && Ascending(t)
    requires SatisfiesEquations(Pruning.Pruned(spec), prims, past, step, row)
    ensures SatisfiesEquations(spec, prims, past, step, row)
  {
    EquationsUnpruned(spec, prims, s, past, step, row);
  }

  lemma UnprunedPrefix(spec: Spec, s: E.Signature, run: seq<Step>, t: Trace)
    requires AllClosed(spec, run) && TypedTrace(spec, s, t) && Ascending(t) && |run| == |t| > 0
    ensures AllClosed(spec, run[..|run| - 1]) && TypedTrace(spec, s, t[..|t| - 1]) && Ascending(t[..|t| - 1])
    ensures StepClosed(spec, run[|run| - 1]) && t == t[..|t| - 1] + [t[|t| - 1]]
  {
  }

  /** So does a whole typed trace. */
  lemma {:induction false} ModelUnpruned(spec: Spec, prims: E.Prims, s: E.Signature, run: seq<Step>, t: Trace)
    requires Sound(spec, prims, s) && AllClosed(spec, run)
    requires TypedTrace(spec, s, t) && Ascending(t) && IsModel(Pruning.Pruned(spec), prims, run, t)
    ensures IsModel(spec, prims, run, t)
    decreases |run|
  {
    if run == [] {
      EmptyModel(spec, prims, t);
    } else {
      var before, past := run[..|run| - 1], t[..|t| - 1];
      LastOfModel(Pruning.Pruned(spec), prims, run, t);
      UnprunedPrefix(spec, s, run, t);
      ModelUnpruned(spec, prims, s, before, past);
      LastUnpruned(spec, prims, s, past, run[|run| - 1], t[|t| - 1], t);
      ModelByLast(spec, prims, run, t);
    }
  }

  // ---------- the pruned specification ----------

  /** A specification whose runs are closed, and whose outputs read nothing late. */
  ghost predicate Orderly(spec: Spec, prims: E.Prims, s: E.Signature, run: seq<Step>) {
    && Sound(spec, prims, s) && Closed(spec, s, run) && Controller.TimesAscend(run)
    && OneStep.WellFormed(spec) && WellOrdered(spec, run)
  }

  /** In an admissible order no read comes too early. */
  lemma TopologicalInOrder(spec: Spec, order: seq<nat>)
    requires OneStep.Topological(spec, order)
    ensures LateReads.SyncInOrder(spec, order)
  {
    forall i: nat, t: nat ensures !LateReads.ReadsLate(spec, order, i, t) {
      if LateReads.ReadsLate(spec, order, i, t) {
        E.SyncReadsAreReads(spec.outputs[order[i]].expr);
        FreshAccesses.TargetIsEarlier(spec, order, i, t);
      }
    }
  }

  lemma OrderlyInOrder(spec: Spec, run: seq<Step>)
    requires WellOrdered(spec, run)
    ensures RunInOrder(spec, run, |run|)
  {
    forall n | 0 <= n < |run| ensures LateReads.SyncInOrder(spec, StepOrder(spec, run[n])) {
      if run[n].Event? {
        ActiveAmongTopological(spec, Flatten(spec.layers), Present(run[n].vals).Keys);
      }
      TopologicalInOrder(spec, StepOrder(spec, run[n]));
    }
  }

  lemma PrefixOrdered(spec: Spec, run: seq<Step>, n: nat)
    requires WellOrdered(spec, run) && n <= |run|
    ensures WellOrdered(spec, run[..n])
  {
    forall m | 0 <= m < n && run[..n][m].Deadline? ensures OneStep.Topological(spec, run[..n][m].due) {
      assert run[m].Deadline?;
    }
  }

  /** The newest value of a history is the newest value of its buffer, and typed as such. */
  lemma NewestTyped(spec: Spec, s: E.Signature, st: State, past: Trace, row: Row)
    requires OneStep.WellFormed(spec) && Holding(spec, st, past + [row]) && TypedState(spec, st, s)
    ensures TypedRow(spec, s, row)
  {
    forall x | Stored(spec, x) && ValueIn(row, x).Just? ensures E.Matches(ValueIn(row, x).value, s.stream(x)) {
      HistorySnoc(past, row, x);
      assert Represents(BufferOf(st, x), BoundOf(spec, x), History(past + [row], x));
      assert HasRoom(BoundOf(spec, x), 1);
      assert BufferOf(st, x)[0] == ValueIn(row, x).value;
    }
  }

  lemma PrefixHolding(spec: Spec, prims: E.Prims, run: seq<Step>, t: Trace, n: nat)
    requires OneStep.WellFormed(spec) && WellOrdered(spec, run) && IsModel(spec, prims, run, t) && n <= |run|
    ensures RunAll(spec, Interpreted(spec, prims), run[..n]).Ok?
    ensures Holding(spec, RunAll(spec, Interpreted(spec, prims), run[..n]).value, t[..n])
  {
    PrefixOrdered(spec, run, n);
    ModelPrefix(spec, prims, run, t, n);
    EvaluatorRefines(spec, prims, run[..n], t[..n]);
  }

  lemma RowTyped(spec: Spec, prims: E.Prims, s: E.Signature, run: seq<Step>, t: Trace, n: nat, r: Outcome<State>)
    requires OneStep.WellFormed(spec) && WellOrdered(spec, run) && IsModel(spec, prims, run, t) && n < |t|
    requires r == RunAll(spec, Interpreted(spec, prims), run[..n + 1]) && r.Ok? && TypedState(spec, r.value, s)
    ensures TypedRow(spec, s, t[n])
  {
    PrefixHolding(spec, prims, run, t, n + 1);
    HeldRowTyped(spec, s, r.value, t, n);
  }

  lemma HeldRowTyped(spec: Spec, s: E.Signature, st: State, t: Trace, n: nat)
    requires OneStep.WellFormed(spec) && n < |t| && Holding(spec, st, t[..n + 1]) && TypedState(spec, st, s)
    ensures TypedRow(spec, s, t[n])
  {
    assert t[..n + 1] == t[..n] + [t[n]];
    NewestTyped(spec, s, st, t[..n], t[n]);
  }

  /** Every trace that satisfies the equations of an orderly specification is typed. */
  lemma ModelTyped(spec: Spec, prims: E.Prims, s: E.Signature, run: seq<Step>, t: Trace)
    requires Orderly(spec, prims, s, run) && IsModel(spec, prims, run, t)
    ensures TypedTrace(spec, s, t)
  {
    OrderlyInOrder(spec, run);
    ResolvedAddressable(spec);
    forall n | 0 <= n < |t| ensures TypedRow(spec, s, t[n]) {
      RunProgresses(spec, prims, s, run, n + 1);
      RowTyped(spec, prims, s, run, t, n, RunAll(spec, Interpreted(spec, prims), run[..n + 1]));
    }
  }

  /** The equations of an orderly specification have a typed solution. */
  lemma OrderlyModelled(spec: Spec, prims: E.Prims, s: E.Signature, run: seq<Step>) returns (t: Trace)
    requires Orderly(spec, prims, s, run)
    ensures IsModel(spec, prims, run, t) && TypedTrace(spec, s, t) && Ascending(t)
  {
    OrderlyInOrder(spec, run);
    ResolvedAddressable(spec);
    RunProgresses(spec, prims, s, run, |run|);
    assert run[..|run|] == run;
    t := RunHasModel(spec, prims, run);
    ModelTyped(spec, prims, s, run, t);
    EvaluatorRefines(spec, prims, run, t);
  }

  // ---------- a specification and its pruned form ----------

  lemma PrunedSound(spec: Spec, prims: E.Prims, s: E.Signature)
    requires Sound(spec, prims, s)
    ensures Sound(Pruning.Pruned(spec), prims, s)
  {
    var q := Pruning.Pruned(spec);
    forall o | 0 <= o < |q.outputs|
      ensures E.TypeOf(s, q.outputs[o].expr) == Ok(ProducedType(q, s, E.OutRef(o)))
    {
      Pruning.PrunedType(s, spec.outputs[o].expr);
    }
    forall x ensures Stored(q, x) <==> Stored(spec, x) {
    }
    forall x ensures ProducedType(q, s, x) == ProducedType(spec, s, x) {
    }
    PrunedResolved(spec);
  }

  lemma PrunedResolved(spec: Spec)
    requires AllResolved(spec)
    ensures AllResolved(Pruning.Pruned(spec))
  {
    var q := Pruning.Pruned(spec);
    forall o, a | 0 <= o < |q.outputs| && a in E.Reads(q.outputs[o].expr) ensures Resolved(q, a) {
      Pruning.PrunedReads(spec.outputs[o].expr);
      Pruning.D.KeptReadsAreReads(spec.outputs[o].expr);
      assert Resolved(spec, a);
    }
  }

  lemma OrderClosed(spec: Spec, order: seq<nat>, freshIn: set<nat>)
    requires SyncClosed(spec, order, freshIn)
    ensures SyncClosed(Pruning.Pruned(spec), order, freshIn)
  {
    var q := Pruning.Pruned(spec);
    forall i, x | 0 <= i < |order| && x in E.SyncReads(q.outputs[order[i]].expr)
      ensures Stored(q, x) && if x.InRef? then x.ix in freshIn else x.ix in order
    {
      Pruning.PrunedSyncReads(spec.outputs[order[i]].expr);
    }
  }

  lemma PrunedClosed(spec: Spec, s: E.Signature, run: seq<Step>)
    requires Closed(spec, s, run)
    ensures Closed(Pruning.Pruned(spec), s, run)
  {
    var q := Pruning.Pruned(spec);
    forall o: nat | o in Flatten(q.layers)
      ensures o < |q.outputs| && q.outputs[o].clock.EventDriven? && Activations.Runnable(q.outputs[o].clock.ac)
    {
      assert q.outputs[o].clock == spec.outputs[o].clock;
    }
    forall n | 0 <= n < |run| ensures StepClosed(q, run[n]) && TypedInput(q, s, run[n]) {
      assert StepClosed(spec, run[n]) && TypedInput(spec, s, run[n]);
      Pruning.StepOrderPruned(spec, run[n]);
      OrderClosed(spec, StepOrder(spec, run[n]), if run[n].Event? then Present(run[n].vals).Keys else {});
    }
  }

  /**
   The equations of a typed specification have a solution on every closed run whose orders respect the
   reads with an edge. Projections do not matter: they can make the evaluator panic, but what is
   declared always has a value.
   */
  lemma TypedRunModelled(spec: Spec, prims: E.Prims, s: E.Signature, run: seq<Step>)
    requires Sound(spec, prims, s) && Closed(spec, s, run) && Controller.TimesAscend(run)
    requires OneStep.WellFormed(Pruning.Pruned(spec)) && WellOrdered(Pruning.Pruned(spec), run)
    ensures HasModel(spec, prims, run)
    ensures forall t :: IsModel(Pruning.Pruned(spec), prims, run, t) <==> IsModel(spec, prims, run, t)
  {
    var q := Pruning.Pruned(spec);
    PrunedSound(spec, prims, s);
    PrunedResolved(spec);
    PrunedClosed(spec, s, run);
    var u := OrderlyModelled(q, prims, s, run);
    SameTyped(spec, s, u);
    ModelUnpruned(spec, prims, s, run, u);
    forall t ensures IsModel(q, prims, run, t) <==> IsModel(spec, prims, run, t) {
      if IsModel(spec, prims, run, t) {
        Pruning.ModelPruned(spec, prims, run, t);
      }
      if IsModel(q, prims, run, t) {
        ModelUnique(q, prims, run, t, u);
      }
    }
  }

  lemma SameTyped(spec: Spec, s: E.Signature, t: Trace)
    requires TypedTrace(Pruning.Pruned(spec), s, t)
    ensures TypedTrace(spec, s, t)
  {
    forall n | 0 <= n < |t| ensures TypedRow(spec, s, t[n]) {
      assert TypedRow(Pruning.Pruned(spec), s, t[n]);
      forall x ensures Stored(Pruning.Pruned(spec), x) <==> Stored(spec, x) {
      }
    }
  }

  // ---------- accepted programs ----------

  lemma IntendedResolved(spec: Spec)
    requires AllResolved(spec)
    ensures AllResolved(Intended(spec))
  {
    var q := Intended(spec);
    forall o, a | 0 <= o < |q.outputs| && a in E.Reads(q.outputs[o].expr) ensures Resolved(q, a) {
      assert Resolved(spec, a);
    }
  }

  lemma IntendedSound(spec: Spec, prims: E.Prims, s: E.Signature)
    requires Sound(spec, prims, s)
    ensures Sound(Intended(spec), prims, s)
  {
    var q := Intended(spec);
    forall x ensures Stored(q, x) <==> Stored(spec, x) {
    }
    forall x ensures ProducedType(q, s, x) == ProducedType(spec, s, x) {
    }
    IntendedResolved(spec);
  }

  /** The specification with all windows linked is as closed. */
  lemma IntendedClosed(spec: Spec, s: E.Signature, run: seq<Step>)
    requires Closed(spec, s, run)
    ensures Closed(Intended(spec), s, run)
  {
    var q := Intended(spec);
    forall n | 0 <= n < |run| ensures StepClosed(q, run[n]) && TypedInput(q, s, run[n]) {
      assert StepClosed(spec, run[n]) && TypedInput(spec, s, run[n]);
      IntendedOrder(spec, run[n]);
    }
  }

  lemma IntendedOrder(spec: Spec, step: Step)
    ensures StepOrder(Intended(spec), step) == StepOrder(spec, step)
  {
    if step.Event? {
      IntendedActive(spec, Flatten(spec.layers), Present(step.vals).Keys);
    }
  }

  lemma {:induction false} IntendedActive(spec: Spec, order: seq<nat>, ins: set<nat>)
    ensures ActiveAmong(Intended(spec), order, ins) == ActiveAmong(spec, order, ins)
    decreases |order|
  {
    if order != [] {
      IntendedActive(spec, order[1..], ins);
      assert IsActive(Intended(spec), order[0], ins) <==> IsActive(spec, order[0], ins);
    }
  }

  lemma IntendedOrdered(spec: Spec, run: seq<Step>)
    requires WellOrdered(spec, run)
    ensures WellOrdered(Intended(spec), run)
  {
    var q := Intended(spec);
    IntendedTopological(spec, Flatten(spec.layers));
    forall o: nat | o in Flatten(q.layers)
      ensures o < |q.outputs| && q.outputs[o].clock.EventDriven? && Activations.Runnable(q.outputs[o].clock.ac)
    {
      assert q.outputs[o].clock == spec.outputs[o].clock;
    }
    forall n | 0 <= n < |run| && run[n].Deadline? ensures OneStep.Topological(q, run[n].due) {
      IntendedTopological(spec, run[n].due);
    }
  }

  lemma IntendedFormed(spec: Spec)
    requires OneStep.WellFormed(spec)
    ensures OneStep.WellFormed(Intended(spec))
  {
    var q := Intended(spec);
    forall x ensures Stored(q, x) <==> Stored(spec, x) {
    }
    forall o, a | 0 <= o < |q.outputs| && a in E.Reads(q.outputs[o].expr) ensures OneStep.Served(q, a) {
      assert OneStep.Served(spec, a);
    }
  }

  lemma IntendedTopological(spec: Spec, order: seq<nat>)
    requires OneStep.Topological(spec, order)
    ensures OneStep.Topological(Intended(spec), order)
  {
    forall i, j | 0 <= i <= j < |order| ensures order[j] !in OneStep.SameInstant(Intended(spec), order[i]) {
      assert OneStep.SameInstant(Intended(spec), order[i]) == OneStep.SameInstant(spec, order[i]);
    }
  }
}
