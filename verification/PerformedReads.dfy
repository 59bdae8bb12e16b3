/**
 The synchronous reads that an evaluation actually performs: a typed expression has a value exactly if
 all of these streams have a current value, and so a run goes through exactly if none of the reads
 performed in it comes too early.
 */
module PerformedReads {
  import opened Values
  import opened Sequences
  import opened Expressions
  import opened Evaluator
  import opened TypedRuns
  import opened Progress
  import opened LateReads
  import Histories
  import FreshAccesses
  import Controller

  // ---------- one expression ----------

  /** Whether the right side of a binary operator is evaluated after the left side had the value. */
  predicate NeedsRight(op: ArithLogOp, lhs: Outcome<Value>) {
    lhs.Ok? && (op.And? ==> lhs.value == Bool(true)) && (op.Or? ==> lhs.value == Bool(false))
  }

  /** The streams that the evaluation in the context reads synchronously, up to its end or its first panic. */
  function Performs(p: Prims, e: Expr, c: Ctx): set<StreamRef>
    decreases e, 1
  {
    match e
    case LoadConstant(_) => {}
    case ArithLog(op, operands) =>
      if operands == [] then {}
      else Performs(p, operands[0], c)
           + (if IsUnary(op) || |operands| < 2 || !NeedsRight(op, EvalExpr(p, operands[0], c)) then {}
              else Performs(p, operands[1], c))
    case OffsetLookup(_, _) => {}
    case StreamAccess(x, kind) => if kind.Sync? then {x} else {}
    case WindowLookup(_) => {}
    case Ite(a, b, d) =>
      var v := EvalExpr(p, a, c);
      Performs(p, a, c)
      + (if v == Ok(Bool(true)) then Performs(p, b, c) else if v == Ok(Bool(false)) then Performs(p, d, c) else {})
    case TupleExpr(elements) => PerformsAll(p, elements, c)
    case TupleAccess(tuple, _) => Performs(p, tuple, c)
    case Function(name, args) =>
      if args == [] then {}
      else Performs(p, args[0], c)
           + (if IsFunction1(name) || !IsFunction2(name) || |args| != 2 || EvalExpr(p, args[0], c).Panic? then {}
              else Performs(p, args[1], c))
    case Convert(_, _, inner) => Performs(p, inner, c)
    case Default(inner, default) =>
      Performs(p, inner, c) + (if EvalExpr(p, inner, c) == Ok(Value.None) then Performs(p, default, c) else {})
  }

  function PerformsAll(p: Prims, es: seq<Expr>, c: Ctx): set<StreamRef>
    decreases es, 0
  {
    if es == [] then {}
    else Performs(p, es[0], c) + (if EvalExpr(p, es[0], c).Panic? then {} else PerformsAll(p, es[1..], c))
  }

  /** Reading a stream without a current value is a panic. */
  lemma {:induction false} StalePanics(p: Prims, e: Expr, c: Ctx, x: StreamRef)
    requires x in Performs(p, e, c) && !c.isFresh(x)
    ensures EvalExpr(p, e, c).Panic?
    decreases e, 1
  {
    match e
    case LoadConstant(_) =>
    case ArithLog(op, operands) =>
      StalePanics(p, if x in Performs(p, operands[0], c) then operands[0] else operands[1], c, x);
    case OffsetLookup(_, _) =>
    case StreamAccess(_, _) =>
    case WindowLookup(_) =>
    case Ite(a, b, d) =>
      if x in Performs(p, a, c) {
        StalePanics(p, a, c, x);
      } else {
        StalePanics(p, if EvalExpr(p, a, c) == Ok(Bool(true)) then b else d, c, x);
      }
    case TupleExpr(elements) => StaleAllPanic(p, elements, c, x);
    case TupleAccess(tuple, _) => StalePanics(p, tuple, c, x);
    case Function(name, args) =>
      StalePanics(p, if x in Performs(p, args[0], c) then args[0] else args[1], c, x);
    case Convert(_, _, inner) => StalePanics(p, inner, c, x);
    case Default(inner, default) =>
      StalePanics(p, if x in Performs(p, inner, c) then inner else default, c, x);
  }

  lemma {:induction false} StaleAllPanic(p: Prims, es: seq<Expr>, c: Ctx, x: StreamRef)
    requires x in PerformsAll(p, es, c) && !c.isFresh(x)
    ensures EvalAll(p, es, c).Panic?
    decreases es, 0
  {
    if x in Performs(p, es[0], c) {
      StalePanics(p, es[0], c, x);
    } else {
      StaleAllPanic(p, es[1..], c, x);
    }
  }

  /** Past values and windows can be looked up, and what is read synchronously has a current value. */
  ghost predicate Current(p: Prims, e: Expr, c: Ctx) {
    && (forall a | a in Reads(e) :: Answered(a, c))
    && forall x | x in Performs(p, e, c) :: c.isFresh(x)
  }

  ghost predicate CurrentAll(p: Prims, es: seq<Expr>, c: Ctx) {
    && (forall a | a in ReadsAll(es) :: Answered(a, c))
    && forall x | x in PerformsAll(p, es, c) :: c.isFresh(x)
  }

  /** A typed expression has a value of its type. */
  ghost predicate HasValue(p: Prims, s: Signature, e: Expr, c: Ctx) {
    TypeOf(s, e).Ok? && Expressions.Sound(p, s, e, c, TypeOf(s, e).value, true)
  }

  ghost predicate Typing(p: Prims, s: Signature, c: Ctx) {
    TypedPrims(p, s) && TotalPrims(p, s) && TypedCtx(c, s)
  }

  lemma CurrentElement(p: Prims, es: seq<Expr>, c: Ctx, i: nat)
    requires i < |es| && (forall a | a in ReadsAll(es) :: Answered(a, c))
    requires forall x | x in Performs(p, es[i], c) :: c.isFresh(x)
    ensures Current(p, es[i], c)
  {
    ReadsOfElement(es, i);
  }

  /** With current values for what it reads, a typed expression has a value. */
  lemma {:induction false} CurrentHasValue(p: Prims, s: Signature, e: Expr, c: Ctx)
    requires Typing(p, s, c) && TypeOf(s, e).Ok? && Current(p, e, c)
    ensures HasValue(p, s, e, c)
    decreases e, 1
  {
    match e
    case LoadConstant(_) =>
    case ArithLog(op, operands) => CurrentOperator(p, s, op, operands, c);
    case OffsetLookup(x, offset) => assert Answered(Past(x, offset.u), c);
    case StreamAccess(_, _) =>
    case WindowLookup(w) => assert Answered(Window(w), c);
    case Ite(a, b, d) =>
      CurrentHasValue(p, s, a, c);
      if EvalExpr(p, a, c) == Ok(Bool(true)) {
        CurrentHasValue(p, s, b, c);
      } else {
        CurrentHasValue(p, s, d, c);
      }
      BranchHasValue(p, s, a, b, d, c);
    case TupleExpr(elements) =>
      CurrentAllHaveValues(p, s, elements, c);
      TupleSound(p, s, elements, c, TypesOf(s, elements).value, true);
    case TupleAccess(tuple, num) =>
      CurrentHasValue(p, s, tuple, c);
      TupleAccessSound(p, s, tuple, num, c, TypeOf(s, tuple).value.tys, true);
    case Function(name, args) => CurrentCall(p, s, name, args, c);
    case Convert(from, to, inner) =>
      CurrentHasValue(p, s, inner, c);
      ConvertSound(p, s, from, to, inner, c, true);
    case Default(inner, default) =>
      CurrentHasValue(p, s, inner, c);
      if EvalExpr(p, inner, c) == Ok(Value.None) {
        CurrentHasValue(p, s, default, c);
      }
      DefaultHasValue(p, s, inner, default, c);
  }

  lemma BranchHasValue(p: Prims, s: Signature, a: Expr, b: Expr, d: Expr, c: Ctx)
    requires TypeOf(s, Ite(a, b, d)).Ok? && HasValue(p, s, a, c)
    requires HasValue(p, s, if EvalExpr(p, a, c) == Ok(Bool(true)) then b else d, c)
    ensures HasValue(p, s, Ite(a, b, d), c)
  {
  }

  lemma DefaultHasValue(p: Prims, s: Signature, inner: Expr, default: Expr, c: Ctx)
    requires TypeOf(s, Default(inner, default)).Ok? && HasValue(p, s, inner, c)
    requires EvalExpr(p, inner, c) == Ok(Value.None) ==> HasValue(p, s, default, c)
    ensures HasValue(p, s, Default(inner, default), c)
  {
  }

  lemma {:induction false} CurrentOperator(p: Prims, s: Signature, op: ArithLogOp, operands: seq<Expr>, c: Ctx)
    requires Typing(p, s, c) && TypeOf(s, ArithLog(op, operands)).Ok? && Current(p, ArithLog(op, operands), c)
    ensures HasValue(p, s, ArithLog(op, operands), c)
    decreases operands, 2
  {
    TypeOfElement(s, operands, 0);
    CurrentElement(p, operands, c, 0);
    CurrentHasValue(p, s, operands[0], c);
    if !IsUnary(op) {
      TypeOfElement(s, operands, 1);
      if NeedsRight(op, EvalExpr(p, operands[0], c)) {
        CurrentElement(p, operands, c, 1);
        CurrentHasValue(p, s, operands[1], c);
      }
    }
    OperatorHasValue(p, s, op, operands, c);
  }

  lemma {:induction false} CurrentCall(p: Prims, s: Signature, name: string, args: seq<Expr>, c: Ctx)
    requires Typing(p, s, c) && TypeOf(s, Function(name, args)).Ok? && Current(p, Function(name, args), c)
    ensures HasValue(p, s, Function(name, args), c)
    decreases args, 2
  {
    TypeOfElement(s, args, 0);
    CurrentElement(p, args, c, 0);
    CurrentHasValue(p, s, args[0], c);
    if !IsFunction1(name) {
      TypeOfElement(s, args, 1);
      CurrentElement(p, args, c, 1);
      CurrentHasValue(p, s, args[1], c);
    }
    CallHasValue(p, s, name, args, c);
  }

  lemma {:induction false} CurrentAllHaveValues(p: Prims, s: Signature, es: seq<Expr>, c: Ctx)
    requires Typing(p, s, c) && TypesOf(s, es).Ok? && CurrentAll(p, es, c)
    ensures AllSound(p, s, es, c, TypesOf(s, es).value, true)
    decreases es, 0
  {
    if es != [] {
      CurrentHasValue(p, s, es[0], c);
      CurrentAllHaveValues(p, s, es[1..], c);
      forall i | 0 <= i < |es| ensures Expressions.Sound(p, s, es[i], c, TypesOf(s, es).value[i], true) {
        assert i > 0 ==> Expressions.Sound(p, s, es[1..][i - 1], c, TypesOf(s, es[1..]).value[i - 1], true);
      }
    }
  }

  lemma OperatorHasValue(p: Prims, s: Signature, op: ArithLogOp, operands: seq<Expr>, c: Ctx)
    requires Typing(p, s, c) && TypeOf(s, ArithLog(op, operands)).Ok?
    requires HasValue(p, s, operands[0], c)
    requires !IsUnary(op) && NeedsRight(op, EvalExpr(p, operands[0], c)) ==> HasValue(p, s, operands[1], c)
    ensures HasValue(p, s, ArithLog(op, operands), c)
  {
    var tys := TypesOf(s, operands).value;
    TypeOfElement(s, operands, 0);
    if !IsUnary(op) {
      TypeOfElement(s, operands, 1);
    }
    if !op.And? && !op.Or? {
      assert AllSound(p, s, operands, c, tys, true);
      ArithSound(p, s, op, operands, tys, c, TypeOf(s, ArithLog(op, operands)).value, true);
    }
  }

  lemma CallHasValue(p: Prims, s: Signature, name: string, args: seq<Expr>, c: Ctx)
    requires Typing(p, s, c) && TypeOf(s, Function(name, args)).Ok?
    requires forall i | 0 <= i < |args| :: HasValue(p, s, args[i], c)
    ensures HasValue(p, s, Function(name, args), c)
  {
    var tys, t := TypesOf(s, args).value, TypeOf(s, Function(name, args)).value;
    forall i | 0 <= i < |args| ensures Expressions.Sound(p, s, args[i], c, tys[i], true) {
      TypeOfElement(s, args, i);
      assert HasValue(p, s, args[i], c);
    }
    if IsFunction1(name) {
      Call1Sound(p, s, name, args, tys, c, t, true);
    } else {
      Call2Sound(p, s, name, args, tys, c, t, true);
    }
  }

  /**
   If its other lookups are served, a typed expression over total operators has a value exactly if every
   stream that its evaluation reads synchronously has a current value.
   */
  lemma HasValueIff(p: Prims, s: Signature, e: Expr, c: Ctx)
    requires Typing(p, s, c) && TypeOf(s, e).Ok? && forall a | a in Reads(e) :: Answered(a, c)
    ensures EvalExpr(p, e, c).Ok? <==> forall x | x in Performs(p, e, c) :: c.isFresh(x)
  {
    if forall x | x in Performs(p, e, c) :: c.isFresh(x) {
      CurrentHasValue(p, s, e, c);
    } else {
      var x :| x in Performs(p, e, c) && !c.isFresh(x);
      StalePanics(p, e, c, x);
    }
  }

  /** What is performed is among the synchronous reads. */
  lemma {:induction false} PerformedAreSync(p: Prims, e: Expr, c: Ctx)
    ensures Performs(p, e, c) <= SyncReads(e)
    decreases e, 1
  {
    match e
    case LoadConstant(_) =>
    case ArithLog(op, operands) =>
      forall i | 0 <= i < |operands| ensures Performs(p, operands[i], c) <= SyncReadsAll(operands) {
        PerformedAreSync(p, operands[i], c);
        SyncReadsOfElement(operands, i);
      }
    case OffsetLookup(_, _) =>
    case StreamAccess(_, _) =>
    case WindowLookup(_) =>
    case Ite(a, b, d) =>
      PerformedAreSync(p, a, c);
      PerformedAreSync(p, b, c);
      PerformedAreSync(p, d, c);
    case TupleExpr(elements) => AllPerformedAreSync(p, elements, c);
    case TupleAccess(tuple, _) => PerformedAreSync(p, tuple, c);
    case Function(_, args) =>
      forall i | 0 <= i < |args| ensures Performs(p, args[i], c) <= SyncReadsAll(args) {
        PerformedAreSync(p, args[i], c);
        SyncReadsOfElement(args, i);
      }
    case Convert(_, _, inner) => PerformedAreSync(p, inner, c);
    case Default(inner, default) =>
      PerformedAreSync(p, inner, c);
      PerformedAreSync(p, default, c);
  }

  lemma {:induction false} AllPerformedAreSync(p: Prims, es: seq<Expr>, c: Ctx)
    ensures PerformsAll(p, es, c) <= SyncReadsAll(es)
    decreases es, 0
  {
    if es != [] {
      PerformedAreSync(p, es[0], c);
      AllPerformedAreSync(p, es[1..], c);
    }
  }

  // ---------- one step ----------

  /** In its turn, the `i`-th output of the order performs the read of an output that comes later in the order. */
  ghost predicate PerformsLate(spec: Spec, p: Prims, st: State, order: seq<nat>, ts: Time, i: nat, t: nat)
    requires Shaped(spec, st)
  {
    && ReadsLate(spec, order, i, t)
    && var before := EvalStreams(spec, Interpreted(spec, p), st, order[..i], ts);
       before.Ok? && OutRef(t) in Performs(p, spec.outputs[order[i]].expr, MachineCtx(spec, before.value, ts))
  }

  /** No read that is performed comes too early. */
  ghost predicate PerformedInOrder(spec: Spec, p: Prims, st: State, order: seq<nat>, ts: Time)
    requires Shaped(spec, st)
  {
    forall i: nat, t: nat :: !PerformsLate(spec, p, st, order, ts, i, t)
  }

  /** The output has a value if the reads it performs do not come too early. */
  lemma TurnProgresses(spec: Spec, p: Prims, s: Signature, st: State, order: seq<nat>, i: nat, ts: Time, mid: State)
    requires TypedTotal(spec, p, s) && Addressable(spec) && SyncClosed(spec, order, st.freshIn) && i < |order|
    requires Shaped(spec, st) && EvalStreams(spec, Interpreted(spec, p), st, order[..i], ts) == Ok(mid)
    requires Ongoing(spec, s, mid, ts) && forall t: nat :: !PerformsLate(spec, p, st, order, ts, i, t)
    ensures var r := EvalStream(spec, Interpreted(spec, p), mid, order[i], ts);
            r.Ok? && Ongoing(spec, s, r.value, ts)
  {
    var e, c := spec.outputs[order[i]].expr, MachineCtx(spec, mid, ts);
    LookupsServed(spec, p, s, mid, order[i], ts);
    PerformedAreSync(p, e, c);
    forall x | x in Performs(p, e, c) ensures c.isFresh(x) {
      if x.OutRef? {
        assert !PerformsLate(spec, p, st, order, ts, i, x.ix);
      }
      FreshAccesses.FreshWhenEvaluated(spec, Interpreted(spec, p), st, order, i, ts, mid, x);
    }
    HasValueIff(p, s, e, c);
    StreamTyped(spec, p, s, mid, order[i], ts);
  }

  lemma LookupsServed(spec: Spec, p: Prims, s: Signature, st: State, o: nat, ts: Time)
    requires TypedTotal(spec, p, s) && Addressable(spec) && Ongoing(spec, s, st, ts) && o < |spec.outputs|
    ensures forall a | a in Reads(spec.outputs[o].expr) :: Answered(a, MachineCtx(spec, st, ts))
    ensures Typing(p, s, MachineCtx(spec, st, ts)) && TypeOf(s, spec.outputs[o].expr).Ok?
  {
    MachineCtxTyped(spec, s, st, ts);
    forall a | a in Reads(spec.outputs[o].expr) ensures Answered(a, MachineCtx(spec, st, ts)) {
      match a
      case Now(_) =>
      case Past(x, k) => PastServed(BufferOf(st, x), IsFresh(st, x), k);
      case Window(w) =>
        assert TotalWindow(spec.windows[w], ProducedType(spec, s, spec.windows[w].target));
        assert spec.windows[w].report(st.logs[w], ts).Ok?;
    }
  }

  lemma {:induction false} PerformedProgresses(spec: Spec, p: Prims, s: Signature, st: State, order: seq<nat>, n: nat,
                                               ts: Time)
    requires TypedTotal(spec, p, s) && Addressable(spec) && Ongoing(spec, s, st, ts)
    requires SyncClosed(spec, order, st.freshIn) && PerformedInOrder(spec, p, st, order, ts) && n <= |order|
    ensures var r := EvalStreams(spec, Interpreted(spec, p), st, order[..n], ts);
            r.Ok? && Ongoing(spec, s, r.value, ts)
  {
    if n > 0 {
      PerformedProgresses(spec, p, s, st, order, n - 1, ts);
      TurnProgresses(spec, p, s, st, order, n - 1, ts,
                     EvalStreams(spec, Interpreted(spec, p), st, order[..n - 1], ts).value);
      PrefixEvaluates(spec, Interpreted(spec, p), st, order, n - 1, ts);
    }
  }

  lemma PerformedLatePanics(spec: Spec, p: Prims, st: State, order: seq<nat>, ts: Time, i: nat, t: nat)
    requires Shaped(spec, st) && st.freshOut == {} && PerformsLate(spec, p, st, order, ts, i, t)
    ensures EvalStreams(spec, Interpreted(spec, p), st, order, ts).Panic?
  {
    var exec := Interpreted(spec, p);
    assert order == order[..i] + order[i..];
    Histories.EvalStreamsConcat(spec, exec, st, order[..i], order[i..], ts);
    var before := EvalStreams(spec, exec, st, order[..i], ts).value;
    OnlyEvaluatedFresh(spec, exec, st, order[..i], ts, before);
    StalePanics(p, spec.outputs[order[i]].expr, MachineCtx(spec, before, ts), OutRef(t));
    assert EvalStream(spec, exec, before, order[i], ts).Panic?;
  }

  /** Exactly when an order gets through: if no read that is performed comes too early. */
  lemma OrderRunsIff(spec: Spec, p: Prims, s: Signature, st: State, order: seq<nat>, ts: Time)
    requires TypedTotal(spec, p, s) && Addressable(spec) && Ongoing(spec, s, st, ts) && st.freshOut == {}
    requires SyncClosed(spec, order, st.freshIn)
    ensures var r := EvalStreams(spec, Interpreted(spec, p), st, order, ts);
            && (r.Ok? <==> PerformedInOrder(spec, p, st, order, ts))
            && (r.Ok? ==> Ongoing(spec, s, r.value, ts))
  {
    if PerformedInOrder(spec, p, st, order, ts) {
      PerformedProgresses(spec, p, s, st, order, |order|, ts);
      assert order[..|order|] == order;
    } else {
      var i: nat, t: nat :| PerformsLate(spec, p, st, order, ts, i, t);
      PerformedLatePanics(spec, p, st, order, ts, i, t);
    }
  }

  /** In the step after `st`, no read that is performed comes too early. */
  ghost predicate StepInOrder(spec: Spec, p: Prims, st: State, step: Step)
    requires Shaped(spec, st)
  {
    var prepared := Histories.PreparedState(spec, st, step);
    prepared.Ok? ==> PerformedInOrder(spec, p, prepared.value, Histories.StepOrder(spec, step), step.ts)
  }

  ghost predicate StepRuns(spec: Spec, p: Prims, s: Signature, st: State, step: Step, r: Outcome<State>)
    requires Shaped(spec, st)
  {
    (r.Ok? <==> StepInOrder(spec, p, st, step)) && (r.Ok? ==> Resting(spec, s, r.value))
  }

  lemma DeadlineRunsIff(spec: Spec, p: Prims, s: Signature, st: State, due: seq<nat>, ts: Time)
    requires TypedTotal(spec, p, s) && Addressable(spec) && Resting(spec, s, st) && Evaluator.InOrder(st.last, ts)
    requires StepClosed(spec, Deadline(due, ts))
    ensures StepRuns(spec, p, s, st, Deadline(due, ts), RunStep(spec, Interpreted(spec, p), st, Deadline(due, ts)))
  {
    assert Deadline(due, ts).due == due;
    StartedTyped(spec, s, st, ts);
    PrepareTyped(spec, s, Started(st, ts), ts);
    OrderRunsIff(spec, p, s, PrepareEvaluation(Started(st, ts), ts), due, ts);
  }

  lemma EventRunsIff(spec: Spec, p: Prims, s: Signature, st: State, vals: seq<Value>, ts: Time)
    requires TypedTotal(spec, p, s) && Addressable(spec) && Resting(spec, s, st) && Evaluator.InOrder(st.last, ts)
    requires TypedInput(spec, s, Event(vals, ts)) && Histories.AllRunnable(spec, Flatten(spec.layers))
    requires StepClosed(spec, Event(vals, ts))
    ensures StepRuns(spec, p, s, st, Event(vals, ts), RunStep(spec, Interpreted(spec, p), st, Event(vals, ts)))
  {
    assert Event(vals, ts).vals == vals;
    StartedTyped(spec, s, st, ts);
    InputsAccepted(spec, s, Started(st, ts), vals, ts);
    var accepted := AcceptInputs(spec, Started(st, ts), vals, |vals|, ts).value;
    var prepared := PrepareEvaluation(accepted, ts);
    PrepareTyped(spec, s, accepted, ts);
    OrderRunsIff(spec, p, s, prepared, Histories.StepOrder(spec, Event(vals, ts)), ts);
    Histories.LayersEvaluateActive(spec, Interpreted(spec, p), prepared, spec.layers, ts);
  }

  lemma StepRunsIff(spec: Spec, p: Prims, s: Signature, st: State, run: seq<Step>, n: nat)
    requires TypedTotal(spec, p, s) && Addressable(spec) && Resting(spec, s, st)
    requires Closed(spec, s, run) && n < |run| && Evaluator.InOrder(st.last, run[n].ts)
    ensures StepRuns(spec, p, s, st, run[n], RunStep(spec, Interpreted(spec, p), st, run[n]))
  {
    assert StepClosed(spec, run[n]) && TypedInput(spec, s, run[n]);
    match run[n]
    case Event(vals, ts) => EventRunsIff(spec, p, s, st, vals, ts);
    case Deadline(due, ts) => DeadlineRunsIff(spec, p, s, st, due, ts);
  }

  // ---------- whole runs ----------

  /** The run gets to its `n`-th step, and a read that is performed in that step comes too early. */
  ghost predicate LateAt(spec: Spec, p: Prims, run: seq<Step>, n: nat)
    requires n < |run|
  {
    var before := RunAll(spec, Interpreted(spec, p), run[..n]);
    before.Ok? && !StepInOrder(spec, p, before.value, run[n])
  }

  /** No read that is performed in the first `n` steps comes too early. */
  ghost predicate NeverLate(spec: Spec, p: Prims, run: seq<Step>, n: nat)
    requires n <= |run|
  {
    forall m | 0 <= m < n :: !LateAt(spec, p, run, m)
  }

  lemma {:induction false} PrefixRunsIff(spec: Spec, p: Prims, s: Signature, run: seq<Step>, n: nat)
    requires TypedTotal(spec, p, s) && Addressable(spec) && Closed(spec, s, run)
    requires Controller.TimesAscend(run) && n <= |run|
    ensures var r := RunAll(spec, Interpreted(spec, p), run[..n]);
            (r.Ok? <==> NeverLate(spec, p, run, n)) && (r.Ok? ==> Resting(spec, s, r.value))
  {
    if n == 0 {
      InitiallyTyped(spec, s);
    } else {
      PrefixRunsIff(spec, p, s, run, n - 1);
      RunNext(spec, Interpreted(spec, p), run, n - 1);
      var before := RunAll(spec, Interpreted(spec, p), run[..n - 1]);
      if before.Ok? {
        StepRunsIff(spec, p, s, before.value, run, n - 1);
      }
      NeverLateNext(spec, p, run, n - 1);
    }
  }

  lemma NeverLateNext(spec: Spec, p: Prims, run: seq<Step>, n: nat)
    requires n < |run|
    ensures NeverLate(spec, p, run, n + 1) <==> NeverLate(spec, p, run, n) && !LateAt(spec, p, run, n)
  {
  }

  /** Exactly when a typed run goes through: if no synchronous read that is performed in it comes too early. */
  lemma RunGoesThroughIff(spec: Spec, p: Prims, s: Signature, run: seq<Step>)
    requires TypedTotal(spec, p, s) && Addressable(spec) && Closed(spec, s, run) && Controller.TimesAscend(run)
    ensures RunAll(spec, Interpreted(spec, p), run).Ok? <==> NeverLate(spec, p, run, |run|)
  {
    PrefixRunsIff(spec, p, s, run, |run|);
    assert run[..|run|] == run;
  }
}
