/**
 Projections out of tuple literals: the projection means its entry. The other entries are evaluated
 and thrown away, so they can make a run panic, but they never change a value.
 */
module Pruning {
  import opened Values
  import opened Sequences
  import opened Expressions
  import opened Stores
  import opened WindowLogs
  import opened Evaluator
  import opened OneStep
  import opened Histories
  import D = Dependencies

  /** The expression without the entries that are projected away. */
  function Prune(e: Expr): Expr
    decreases e, 1
  {
    match e
    case LoadConstant(_) => e
    case ArithLog(op, operands) => ArithLog(op, PruneAll(operands))
    case OffsetLookup(_, _) => e
    case StreamAccess(_, _) => e
    case WindowLookup(_) => e
    case Ite(a, b, c) => Ite(Prune(a), Prune(b), Prune(c))
    case TupleExpr(elements) => TupleExpr(PruneAll(elements))
    case TupleAccess(tuple, num) =>
      if tuple.TupleExpr? && num < |tuple.elements| then Prune(tuple.elements[num]) else TupleAccess(Prune(tuple), num)
    case Function(name, args) => Function(name, PruneAll(args))
    case Convert(from, to, inner) => Convert(from, to, Prune(inner))
    case Default(inner, default) => Default(Prune(inner), Prune(default))
  }

  function PruneAll(es: seq<Expr>): (r: seq<Expr>)
    ensures |r| == |es|
    decreases es, 0
  {
    if es == [] then [] else [Prune(es[0])] + PruneAll(es[1..])
  }

  lemma {:induction false} PruneElement(es: seq<Expr>, i: nat)
    requires i < |es|
    ensures PruneAll(es)[i] == Prune(es[i])
  {
    if i > 0 {
      PruneElement(es[1..], i - 1);
    }
  }

  /** What is left reads exactly what has an edge in the dependency graph. */
  lemma {:induction false} PrunedReads(e: Expr)
    ensures Reads(Prune(e)) == D.KeptReads(e)
    decreases e, 1
  {
    match e
    case LoadConstant(_) =>
    case ArithLog(_, operands) => PrunedReadsAll(operands);
    case OffsetLookup(_, _) =>
    case StreamAccess(_, _) =>
    case WindowLookup(_) =>
    case Ite(a, b, c) =>
      PrunedReads(a);
      PrunedReads(b);
      PrunedReads(c);
    case TupleExpr(elements) => PrunedReadsAll(elements);
    case TupleAccess(tuple, num) =>
      if tuple.TupleExpr? && num < |tuple.elements| {
        PrunedReads(tuple.elements[num]);
      } else {
        PrunedReads(tuple);
      }
    case Function(_, args) => PrunedReadsAll(args);
    case Convert(_, _, inner) => PrunedReads(inner);
    case Default(inner, default) =>
      PrunedReads(inner);
      PrunedReads(default);
  }

  lemma {:induction false} PrunedReadsAll(es: seq<Expr>)
    ensures ReadsAll(PruneAll(es)) == D.KeptReadsAll(es)
    decreases es, 0
  {
    if es != [] {
      PrunedReads(es[0]);
      PrunedReadsAll(es[1..]);
      assert PruneAll(es)[1..] == PruneAll(es[1..]);
    }
  }

  /** Pruning adds no synchronous read. */
  lemma {:induction false} PrunedSyncReads(e: Expr)
    ensures SyncReads(Prune(e)) <= SyncReads(e)
    decreases e, 1
  {
    match e
    case LoadConstant(_) =>
    case ArithLog(_, operands) => PrunedSyncReadsAll(operands);
    case OffsetLookup(_, _) =>
    case StreamAccess(_, _) =>
    case WindowLookup(_) =>
    case Ite(a, b, c) =>
      PrunedSyncReads(a);
      PrunedSyncReads(b);
      PrunedSyncReads(c);
    case TupleExpr(elements) => PrunedSyncReadsAll(elements);
    case TupleAccess(tuple, num) =>
      if tuple.TupleExpr? && num < |tuple.elements| {
        PrunedSyncReads(tuple.elements[num]);
        SyncReadsOfElement(tuple.elements, num);
      } else {
        PrunedSyncReads(tuple);
      }
    case Function(_, args) => PrunedSyncReadsAll(args);
    case Convert(_, _, inner) => PrunedSyncReads(inner);
    case Default(inner, default) =>
      PrunedSyncReads(inner);
      PrunedSyncReads(default);
  }

  lemma {:induction false} PrunedSyncReadsAll(es: seq<Expr>)
    ensures SyncReadsAll(PruneAll(es)) <= SyncReadsAll(es)
    decreases es, 0
  {
    if es != [] {
      PrunedSyncReads(es[0]);
      PrunedSyncReadsAll(es[1..]);
      assert PruneAll(es)[1..] == PruneAll(es[1..]);
    }
  }

  /** A typed expression keeps its type. */
  lemma {:induction false} PrunedType(s: Signature, e: Expr)
    ensures TypeOf(s, e).Ok? ==> TypeOf(s, Prune(e)) == TypeOf(s, e)
    decreases e, 1
  {
    match e
    case LoadConstant(_) =>
    case ArithLog(_, operands) => PrunedTypes(s, operands);
    case OffsetLookup(_, _) =>
    case StreamAccess(_, _) =>
    case WindowLookup(_) =>
    case Ite(a, b, c) =>
      PrunedType(s, a);
      PrunedType(s, b);
      PrunedType(s, c);
    case TupleExpr(elements) => PrunedTypes(s, elements);
    case TupleAccess(tuple, num) =>
      if tuple.TupleExpr? && num < |tuple.elements| {
        PrunedType(s, tuple.elements[num]);
        if TypesOf(s, tuple.elements).Ok? {
          TypeOfElement(s, tuple.elements, num);
        }
      } else {
        PrunedType(s, tuple);
      }
    case Function(_, args) => PrunedTypes(s, args);
    case Convert(_, _, inner) => PrunedType(s, inner);
    case Default(inner, default) =>
      PrunedType(s, inner);
      PrunedType(s, default);
  }

  lemma {:induction false} PrunedTypes(s: Signature, es: seq<Expr>)
    ensures TypesOf(s, es).Ok? ==> TypesOf(s, PruneAll(es)) == TypesOf(s, es)
    decreases es, 0
  {
    if es != [] {
      PrunedType(s, es[0]);
      PrunedTypes(s, es[1..]);
      assert PruneAll(es)[1..] == PruneAll(es[1..]);
    }
  }

  /** If the expression has a value, the pruned one has the same. */
  ghost predicate PrunedAgrees(p: Prims, e: Expr, c: Ctx) {
    EvalExpr(p, e, c).Ok? ==> EvalExpr(p, Prune(e), c) == EvalExpr(p, e, c)
  }

  lemma {:induction false} EvalAllElement(p: Prims, es: seq<Expr>, c: Ctx, i: nat)
    requires i < |es| && EvalAll(p, es, c).Ok?
    ensures |EvalAll(p, es, c).value| == |es| && EvalExpr(p, es[i], c) == Ok(EvalAll(p, es, c).value[i])
    decreases es
  {
    if i > 0 {
      EvalAllElement(p, es[1..], c, i - 1);
    } else if |es| > 1 {
      EvalAllElement(p, es[1..], c, 0);
    }
  }

  lemma PrunedUnary(p: Prims, op: ArithLogOp, operands: seq<Expr>, c: Ctx)
    requires IsUnary(op) && (operands != [] ==> PrunedAgrees(p, operands[0], c))
    ensures PrunedAgrees(p, ArithLog(op, operands), c)
  {
    if operands != [] {
      PruneElement(operands, 0);
    }
  }

  lemma PrunedBinary(p: Prims, op: ArithLogOp, operands: seq<Expr>, c: Ctx)
    requires !IsUnary(op) && (operands != [] ==> PrunedAgrees(p, operands[0], c))
    requires |operands| > 1 ==> PrunedAgrees(p, operands[1], c)
    ensures PrunedAgrees(p, ArithLog(op, operands), c)
  {
    if operands != [] {
      PruneElement(operands, 0);
    }
    if |operands| > 1 {
      PruneElement(operands, 1);
    }
  }

  lemma PrunedCall(p: Prims, name: string, args: seq<Expr>, c: Ctx)
    requires forall i | 0 <= i < |args| :: PrunedAgrees(p, args[i], c)
    ensures PrunedAgrees(p, Function(name, args), c)
  {
    if |args| > 0 {
      PruneElement(args, 0);
    }
    if |args| > 1 {
      PruneElement(args, 1);
    }
  }

  lemma {:induction false} PrunedTuple(p: Prims, es: seq<Expr>, c: Ctx)
    requires forall i | 0 <= i < |es| :: PrunedAgrees(p, es[i], c)
    ensures EvalAll(p, es, c).Ok? ==> EvalAll(p, PruneAll(es), c) == EvalAll(p, es, c)
    decreases es
  {
    if es != [] {
      assert PruneAll(es)[1..] == PruneAll(es[1..]);
      PrunedTuple(p, es[1..], c);
    }
  }

  /** A projection out of a literal has the value of its entry. */
  lemma ProjectedEntry(p: Prims, es: seq<Expr>, num: nat, c: Ctx)
    requires num < |es| && PrunedAgrees(p, es[num], c)
    ensures PrunedAgrees(p, TupleAccess(TupleExpr(es), num), c)
  {
    if EvalAll(p, es, c).Ok? {
      EvalAllElement(p, es, c, num);
    }
  }

  lemma PrunedParts(p: Prims, a: Expr, b: Expr, d: Expr, num: nat, from: Type, to: Type, c: Ctx)
    requires PrunedAgrees(p, a, c) && PrunedAgrees(p, b, c) && PrunedAgrees(p, d, c)
    ensures PrunedAgrees(p, Ite(a, b, d), c) && PrunedAgrees(p, Default(a, b), c)
            && PrunedAgrees(p, Convert(from, to, a), c)
    ensures !a.TupleExpr? ==> PrunedAgrees(p, TupleAccess(a, num), c)
  {
  }

  /** Whatever the context: an expression that has a value has the value of its pruned form. */
  lemma {:induction false} PrunedValue(p: Prims, e: Expr, c: Ctx)
    ensures PrunedAgrees(p, e, c)
    decreases e, 1
  {
    match e
    case LoadConstant(_) =>
    case ArithLog(op, operands) =>
      PrunedValues(p, operands, c);
      if IsUnary(op) {
        PrunedUnary(p, op, operands, c);
      } else {
        PrunedBinary(p, op, operands, c);
      }
    case OffsetLookup(_, _) =>
    case StreamAccess(_, _) =>
    case WindowLookup(_) =>
    case Ite(a, b, d) =>
      PrunedValue(p, a, c);
      PrunedValue(p, b, c);
      PrunedValue(p, d, c);
      PrunedParts(p, a, b, d, 0, BoolT, BoolT, c);
    case TupleExpr(elements) =>
      PrunedValues(p, elements, c);
      PrunedTuple(p, elements, c);
    case TupleAccess(tuple, num) =>
      if tuple.TupleExpr? && num < |tuple.elements| {
        PrunedValue(p, tuple.elements[num], c);
        ProjectedEntry(p, tuple.elements, num, c);
      } else if tuple.TupleExpr? {
        NoSuchEntry(p, tuple.elements, num, c);
      } else {
        PrunedValue(p, tuple, c);
        PrunedParts(p, tuple, tuple, tuple, num, BoolT, BoolT, c);
      }
    case Function(name, args) =>
      PrunedValues(p, args, c);
      PrunedCall(p, name, args, c);
    case Convert(from, to, inner) =>
      PrunedValue(p, inner, c);
      PrunedParts(p, inner, inner, inner, 0, from, to, c);
    case Default(inner, default) =>
      PrunedValue(p, inner, c);
      PrunedValue(p, default, c);
      PrunedParts(p, inner, default, default, 0, BoolT, BoolT, c);
  }

  lemma NoSuchEntry(p: Prims, es: seq<Expr>, num: nat, c: Ctx)
    requires num >= |es|
    ensures EvalExpr(p, TupleAccess(TupleExpr(es), num), c).Panic?
  {
    if EvalAll(p, es, c).Ok? && es != [] {
      EvalAllElement(p, es, c, 0);
    }
  }

  lemma {:induction false} PrunedValues(p: Prims, es: seq<Expr>, c: Ctx)
    ensures forall i | 0 <= i < |es| :: PrunedAgrees(p, es[i], c)
    decreases es, 0
  {
    forall i | 0 <= i < |es| ensures PrunedAgrees(p, es[i], c) {
      PrunedValue(p, es[i], c);
    }
  }

  /**
   An expression depends on what it projects away only through panics: contexts that agree on the
   reads with an edge give one value, if both give a value.
   */
  lemma DroppedReadsOnlyPanic(p: Prims, e: Expr, c: Ctx, d: Ctx)
    requires Agree(D.KeptReads(e), c, d) && EvalExpr(p, e, c).Ok? && EvalExpr(p, e, d).Ok?
    ensures EvalExpr(p, e, c) == EvalExpr(p, e, d)
  {
    PrunedValue(p, e, c);
    PrunedValue(p, e, d);
    PrunedReads(e);
    EvalDependsOnReads(p, Prune(e), c, d);
  }

  // ---------- whole runs ----------

  function PrunedOutput(output: OutputStream): OutputStream {
    output.(expr := Prune(output.expr))
  }

  function Pruned(spec: Spec): Spec {
    spec.(outputs := seq(|spec.outputs|, o requires 0 <= o < |spec.outputs| => PrunedOutput(spec.outputs[o])))
  }

  lemma StreamPruned(spec: Spec, p: Prims, st: State, o: nat, ts: Time)
    requires Shaped(spec, st)
    ensures var r := EvalStream(spec, Interpreted(spec, p), st, o, ts);
            r.Ok? ==> EvalStream(Pruned(spec), Interpreted(Pruned(spec), p), st, o, ts) == r
  {
    if o < |spec.outputs| {
      var e := spec.outputs[o].expr;
      var c, d := MachineCtx(spec, st, ts), MachineCtx(Pruned(spec), st, ts);
      PrunedValue(p, e, c);
      EvalDependsOnReads(p, Prune(e), c, d);
      StorePruned(spec, st, o, EvalExpr(p, e, c), ts);
    }
  }

  lemma StorePruned(spec: Spec, st: State, o: nat, v: Outcome<Value>, ts: Time)
    requires Shaped(spec, st) && o < |spec.outputs|
    ensures v.Ok? ==> StoreValue(Pruned(spec), st, o, v.value, ts) == StoreValue(spec, st, o, v.value, ts)
  {
    if v.Ok? {
      FeedPruned(spec, st.logs, OutRef(o), v.value, ts);
    }
  }

  lemma FeedPruned(spec: Spec, logs: seq<seq<Operation>>, x: StreamRef, v: Value, ts: Time)
    requires |logs| == |spec.windows|
    ensures Feed(Pruned(spec), logs, x, v, ts) == Feed(spec, logs, x, v, ts)
  {
    forall w | 0 <= w < |logs| ensures Feed(Pruned(spec), logs, x, v, ts)[w] == Feed(spec, logs, x, v, ts)[w] {
      assert Source(Pruned(spec), w) == Source(spec, w);
    }
  }

  lemma {:induction false} StreamsPruned(spec: Spec, p: Prims, st: State, order: seq<nat>, ts: Time)
    requires Shaped(spec, st)
    ensures var r := EvalStreams(spec, Interpreted(spec, p), st, order, ts);
            r.Ok? ==> EvalStreams(Pruned(spec), Interpreted(Pruned(spec), p), st, order, ts) == r
    decreases |order|
  {
    if order != [] {
      StreamPruned(spec, p, st, order[0], ts);
      var next := EvalStream(spec, Interpreted(spec, p), st, order[0], ts);
      if next.Ok? {
        StreamsPruned(spec, p, next.value, order[1..], ts);
      }
    }
  }

  lemma {:induction false} LayerPruned(spec: Spec, p: Prims, st: State, layer: seq<nat>, ts: Time)
    requires Shaped(spec, st)
    ensures var r := EvalLayer(spec, Interpreted(spec, p), st, layer, ts);
            r.Ok? ==> EvalLayer(Pruned(spec), Interpreted(Pruned(spec), p), st, layer, ts) == r
    decreases |layer|
  {
    if layer != [] {
      StreamPruned(spec, p, st, layer[0], ts);
      assert ConditionOf(Pruned(spec), layer[0]) == ConditionOf(spec, layer[0]);
      var next := EvalIfActive(spec, Interpreted(spec, p), st, layer[0], ts);
      if next.Ok? {
        LayerPruned(spec, p, next.value, layer[1..], ts);
      }
    }
  }

  lemma {:induction false} LayersPruned(spec: Spec, p: Prims, st: State, layers: seq<seq<nat>>, ts: Time)
    requires Shaped(spec, st)
    ensures var r := EvalLayers(spec, Interpreted(spec, p), st, layers, ts);
            r.Ok? ==> EvalLayers(Pruned(spec), Interpreted(Pruned(spec), p), st, layers, ts) == r
    decreases |layers|
  {
    if layers != [] {
      LayerPruned(spec, p, st, layers[0], ts);
      var next := EvalLayer(spec, Interpreted(spec, p), st, layers[0], ts);
      if next.Ok? {
        LayersPruned(spec, p, next.value, layers[1..], ts);
      }
    }
  }

  lemma {:induction false} AcceptPruned(spec: Spec, st: State, vals: seq<Value>, n: nat, ts: Time)
    requires Shaped(spec, st) && n <= |vals|
    ensures AcceptInputs(Pruned(spec), st, vals, n, ts) == AcceptInputs(spec, st, vals, n, ts)
    decreases n
  {
    if n > 0 {
      AcceptPruned(spec, st, vals, n - 1, ts);
      var before := AcceptInputs(spec, st, vals, n - 1, ts);
      if before.Ok? && !vals[n - 1].None? && n - 1 < |spec.inputs| {
        FeedPruned(spec, before.value.logs, InRef(n - 1), vals[n - 1], ts);
      }
    }
  }

  lemma StepPruned(spec: Spec, p: Prims, st: State, step: Step)
    requires Shaped(spec, st)
    ensures var r := RunStep(spec, Interpreted(spec, p), st, step);
            r.Ok? ==> RunStep(Pruned(spec), Interpreted(Pruned(spec), p), st, step) == r
  {
    var cleared := ClearFreshness(st).(last := Just(step.ts));
    match step
    case Event(vals, ts) =>
      AcceptPruned(spec, cleared, vals, |vals|, ts);
      var accepted := AcceptInputs(spec, cleared, vals, |vals|, ts);
      if accepted.Ok? {
        LayersPruned(spec, p, PrepareEvaluation(accepted.value, ts), spec.layers, ts);
      }
    case Deadline(due, ts) =>
      StreamsPruned(spec, p, PrepareEvaluation(cleared, ts), due, ts);
  }

  /** Whenever a run goes through, it is the run of the pruned specification: projections never change a value. */
  lemma {:induction false} RunPruned(spec: Spec, p: Prims, run: seq<Step>)
    ensures var r := RunAll(spec, Interpreted(spec, p), run);
            r.Ok? ==> RunAll(Pruned(spec), Interpreted(Pruned(spec), p), run) == r
    decreases |run|
  {
    if run == [] {
      assert InitialState(Pruned(spec)) == InitialState(spec);
    } else {
      RunPruned(spec, p, run[..|run| - 1]);
      var st := RunAll(spec, Interpreted(spec, p), run[..|run| - 1]);
      if st.Ok? {
        StepPruned(spec, p, st.value, run[|run| - 1]);
      }
    }
  }

  lemma {:induction false} ActiveAmongPruned(spec: Spec, order: seq<nat>, ins: set<nat>)
    ensures ActiveAmong(Pruned(spec), order, ins) == ActiveAmong(spec, order, ins)
    decreases |order|
  {
    if order != [] {
      ActiveAmongPruned(spec, order[1..], ins);
      assert IsActive(Pruned(spec), order[0], ins) <==> IsActive(spec, order[0], ins);
    }
  }

  lemma StepOrderPruned(spec: Spec, step: Step)
    ensures StepOrder(Pruned(spec), step) == StepOrder(spec, step)
  {
    if step.Event? {
      ActiveAmongPruned(spec, Flatten(spec.layers), Present(step.vals).Keys);
    }
  }

  // ---------- the equations ----------

  lemma ReportsPruned(spec: Spec, row: map<nat, Value>, done: set<nat>, ts: Time)
    requires done <= row.Keys
    ensures Reports(Pruned(spec), row, done, ts) == Reports(spec, row, done, ts)
  {
    forall o | o in done && o < |spec.outputs| ensures Pruned(spec).outputs[o].isTrigger == spec.outputs[o].isTrigger {
    }
  }

  lemma {:induction false} FiredPruned(spec: Spec, t: Trace)
    ensures Fired(Pruned(spec), t) == Fired(spec, t)
  {
    if t != [] {
      var row := t[|t| - 1];
      FiredPruned(spec, t[..|t| - 1]);
      ReportsPruned(spec, row.outs, row.outs.Keys, row.ts);
    }
  }

  lemma StoredPruned(spec: Spec, x: StreamRef)
    ensures Stored(Pruned(spec), x) <==> Stored(spec, x)
    ensures Stored(spec, x) ==> BoundOf(Pruned(spec), x) == BoundOf(spec, x)
  {
  }

  lemma LogsPruned(spec: Spec, w: nat)
    requires w < |spec.windows|
    ensures Source(Pruned(spec), w) == Source(spec, w)
  {
  }

  /** The state holds the same histories. */
  lemma HoldingPruned(spec: Spec, st: State, t: Trace)
    ensures Holding(Pruned(spec), st, t) <==> Holding(spec, st, t)
  {
    FiredPruned(spec, t);
    forall x ensures Stored(Pruned(spec), x) <==> Stored(spec, x)
      ensures Stored(spec, x) ==> BoundOf(Pruned(spec), x) == BoundOf(spec, x)
    {
      StoredPruned(spec, x);
    }
    forall w: nat | w < |spec.windows| ensures Source(Pruned(spec), w) == Source(spec, w) {
      LogsPruned(spec, w);
    }
  }

  lemma PrunedObserves(spec: Spec, past: Trace, row: Row, o: nat, accesses: set<Access>)
    ensures Agree(accesses, DeclarativeCtx(spec, past, row, o), DeclarativeCtx(Pruned(spec), past, row, o))
  {
    forall a | a in accesses ensures AgreeOn(
        a, DeclarativeCtx(spec, past, row, o), DeclarativeCtx(Pruned(spec), past, row, o)) {
      if a.Window? && a.w < |spec.windows| {
        assert Source(Pruned(spec), a.w) == Source(spec, a.w);
      }
    }
  }

  /** A row that satisfies the equations of the specification satisfies those of the pruned one. */
  lemma EquationsPruned(spec: Spec, p: Prims, past: Trace, step: Step, row: Row)
    requires SatisfiesEquations(spec, p, past, step, row)
    ensures SatisfiesEquations(Pruned(spec), p, past, step, row)
  {
    forall o: nat ensures IsActive(Pruned(spec), o, row.ins.Keys) <==> IsActive(spec, o, row.ins.Keys) {
    }
    forall o | o in row.outs
      ensures o < |spec.outputs|
      ensures EvalExpr(p, Prune(spec.outputs[o].expr), DeclarativeCtx(Pruned(spec), past, row, o)) == Ok(row.outs[o])
    {
      var e := spec.outputs[o].expr;
      PrunedValue(p, e, DeclarativeCtx(spec, past, row, o));
      PrunedObserves(spec, past, row, o, Reads(Prune(e)));
      EvalDependsOnReads(p, Prune(e), DeclarativeCtx(spec, past, row, o), DeclarativeCtx(Pruned(spec), past, row, o));
    }
  }

  /** A trace that satisfies the equations satisfies the pruned ones. */
  lemma {:induction false} ModelPruned(spec: Spec, p: Prims, run: seq<Step>, t: Trace)
    requires IsModel(spec, p, run, t)
    ensures IsModel(Pruned(spec), p, run, t)
    decreases |run|
  {
    if run != [] {
      ModelPruned(spec, p, run[..|run| - 1], t[..|t| - 1]);
      EquationsPruned(spec, p, t[..|t| - 1], run[|run| - 1], t[|t| - 1]);
    }
  }
}
