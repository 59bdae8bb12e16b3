/**
 Synchronous reads in an order of evaluation: which of them come too early, and what an expression
 does that reads a stream without a current value.
 */
module LateReads {
  import opened Values
  import opened Sequences
  import opened Expressions
  import opened Evaluator
  import opened Histories

  // ---------- reads that are always performed ----------

  /** The streams that an expression reads synchronously whenever it has a value. */
  function StrictSync(e: Expr): set<StreamRef>
    decreases e, 1
  {
    match e
    case LoadConstant(_) => {}
    case ArithLog(op, operands) =>
      StrictSyncOf(operands, if IsUnary(op) || op.And? || op.Or? then 1 else 2)
    case OffsetLookup(_, _) => {}
    case StreamAccess(x, kind) => if kind.Sync? then {x} else {}
    case WindowLookup(_) => {}
    case Ite(a, b, d) => StrictSync(a) + (StrictSync(b) * StrictSync(d))
    case TupleExpr(elements) => StrictSyncOf(elements, |elements|)
    case TupleAccess(tuple, _) => StrictSync(tuple)
    case Function(name, args) => StrictSyncOf(args, if IsFunction1(name) then 1 else 2)
    case Convert(_, _, inner) => StrictSync(inner)
    case Default(inner, _) => StrictSync(inner)
  }

  function StrictSyncOf(es: seq<Expr>, n: nat): set<StreamRef>
    decreases es, 0
  {
    if es == [] || n == 0 then {} else StrictSync(es[0]) + StrictSyncOf(es[1..], n - 1)
  }

  lemma {:induction false} StrictElement(es: seq<Expr>, n: nat, x: StreamRef) returns (i: nat)
    requires x in StrictSyncOf(es, n)
    ensures i < |es| && i < n && x in StrictSync(es[i])
    decreases es
  {
    if x in StrictSync(es[0]) {
      i := 0;
    } else {
      i := StrictElement(es[1..], n - 1, x);
      i := i + 1;
    }
  }

  lemma {:induction false} EvalAllPanics(p: Prims, es: seq<Expr>, c: Ctx, i: nat)
    requires i < |es| && EvalExpr(p, es[i], c).Panic?
    ensures EvalAll(p, es, c).Panic?
    decreases es
  {
    if i > 0 {
      EvalAllPanics(p, es[1..], c, i - 1);
    }
  }

  /** Without a current value of such a stream the expression panics. */
  lemma {:induction false} StrictPanics(p: Prims, e: Expr, c: Ctx, x: StreamRef)
    requires x in StrictSync(e) && !c.isFresh(x)
    ensures EvalExpr(p, e, c).Panic?
    decreases e
  {
    match e
    case LoadConstant(_) =>
    case ArithLog(op, operands) =>
      var i := StrictElement(operands, if IsUnary(op) || op.And? || op.Or? then 1 else 2, x);
      StrictPanics(p, operands[i], c, x);
    case OffsetLookup(_, _) =>
    case StreamAccess(_, _) =>
    case WindowLookup(_) =>
    case Ite(a, b, d) =>
      if x in StrictSync(a) {
        StrictPanics(p, a, c, x);
      } else {
        StrictPanics(p, b, c, x);
        StrictPanics(p, d, c, x);
      }
    case TupleExpr(elements) =>
      var i := StrictElement(elements, |elements|, x);
      StrictPanics(p, elements[i], c, x);
      EvalAllPanics(p, elements, c, i);
    case TupleAccess(tuple, _) => StrictPanics(p, tuple, c, x);
    case Function(name, args) =>
      var i := StrictElement(args, if IsFunction1(name) then 1 else 2, x);
      StrictPanics(p, args[i], c, x);
    case Convert(_, _, inner) => StrictPanics(p, inner, c, x);
    case Default(inner, _) => StrictPanics(p, inner, c, x);
  }

  // ---------- reads that come too early ----------

  /** The `i`-th output of the order reads an output of the order synchronously that is not evaluated before it. */
  ghost predicate ReadsLate(spec: Spec, order: seq<nat>, i: nat, t: nat) {
    && i < |order| && order[i] < |spec.outputs| && OutRef(t) in SyncReads(spec.outputs[order[i]].expr)
    && t in order && t !in order[..i]
  }

  /** No output is evaluated before an output of the order that it reads synchronously. */
  ghost predicate SyncInOrder(spec: Spec, order: seq<nat>) {
    forall i: nat, t: nat :: !ReadsLate(spec, order, i, t)
  }

  /** Every read that comes too early is always performed. */
  ghost predicate LateReadsStrict(spec: Spec, order: seq<nat>) {
    forall i: nat, t: nat | ReadsLate(spec, order, i, t) :: OutRef(t) in StrictSync(spec.outputs[order[i]].expr)
  }

  /** Only what has been evaluated becomes fresh. */
  lemma {:induction false} OnlyEvaluatedFresh(spec: Spec, exec: Executor, st: State, order: seq<nat>, ts: Time,
                                              mid: State)
    requires Shaped(spec, st) && EvalStreams(spec, exec, st, order, ts) == Ok(mid)
    ensures mid.freshOut <= st.freshOut + Elements(order)
    decreases |order|
  {
    if order != [] {
      var next := EvalStream(spec, exec, st, order[0], ts).value;
      OnlyEvaluatedFresh(spec, exec, next, order[1..], ts, mid);
      assert forall o | o in order[1..] :: o in order;
    }
  }

  /** A read that comes too early and is always performed makes the evaluation of the order panic. */
  lemma LateReadPanics(spec: Spec, p: Prims, st: State, order: seq<nat>, i: nat, t: nat, ts: Time)
    requires Shaped(spec, st) && st.freshOut == {} && ReadsLate(spec, order, i, t)
    requires OutRef(t) in StrictSync(spec.outputs[order[i]].expr)
    ensures EvalStreams(spec, Interpreted(spec, p), st, order, ts).Panic?
  {
    var exec := Interpreted(spec, p);
    assert order == order[..i] + order[i..];
    EvalStreamsConcat(spec, exec, st, order[..i], order[i..], ts);
    var before := EvalStreams(spec, exec, st, order[..i], ts);
    if before.Ok? {
      OnlyEvaluatedFresh(spec, exec, st, order[..i], ts, before.value);
      StrictPanics(p, spec.outputs[order[i]].expr, MachineCtx(spec, before.value, ts), OutRef(t));
      assert EvalStream(spec, exec, before.value, order[i], ts).Panic?;
    }
  }

  // ---------- the active outputs of an event ----------

  lemma {:induction false} ActivePosition(spec: Spec, order: seq<nat>, ins: set<nat>, i: nat) returns (j: nat)
    requires i < |ActiveAmong(spec, order, ins)|
    ensures j < |order| && order[j] == ActiveAmong(spec, order, ins)[i]
    ensures ActiveAmong(spec, order[..j], ins) == ActiveAmong(spec, order, ins)[..i]
    decreases |order|
  {
    var rest, active := ActiveAmong(spec, order[1..], ins), ActiveAmong(spec, order, ins);
    var first := if IsActive(spec, order[0], ins) then [order[0]] else [];
    assert active == first + rest;
    if i < |first| {
      j := 0;
      assert active[..0] == [] && order[..0] == [];
    } else {
      j := ActivePosition(spec, order[1..], ins, i - |first|);
      assert order[..j + 1][1..] == order[1..][..j];
      assert ActiveAmong(spec, order[..j + 1], ins) == first + ActiveAmong(spec, order[1..][..j], ins);
      assert active[..i] == first + rest[..i - |first|];
      j := j + 1;
    }
  }

  /** What comes too early among the active outputs comes too early in the layers. */
  lemma LateInLayers(spec: Spec, order: seq<nat>, ins: set<nat>, i: nat, t: nat) returns (j: nat)
    requires ReadsLate(spec, ActiveAmong(spec, order, ins), i, t)
    ensures ReadsLate(spec, order, j, t)
  {
    j := ActivePosition(spec, order, ins, i);
    ActiveAmongElements(spec, order, ins, t);
    ActiveAmongElements(spec, order[..j], ins, t);
  }

  /** If no read of the layers comes too early, none does in any event. */
  lemma ActiveInOrder(spec: Spec, order: seq<nat>, ins: set<nat>)
    requires SyncInOrder(spec, order)
    ensures SyncInOrder(spec, ActiveAmong(spec, order, ins))
  {
    forall i: nat, t: nat ensures !ReadsLate(spec, ActiveAmong(spec, order, ins), i, t) {
      if ReadsLate(spec, ActiveAmong(spec, order, ins), i, t) {
        var j := LateInLayers(spec, order, ins, i, t);
      }
    }
  }
}
