/** For well-typed specifications and events, the closure-based evaluator runs exactly like the interpreter. */
module CompiledRuns {
  import opened Values
  import opened Expressions
  import opened Closures
  import opened Activations
  import opened Evaluator
  import opened TypedRuns

  /** The specification is typed, and the executor is the one of its compiled expressions. */
  ghost predicate Compiled(spec: Spec, p: Prims, s: Signature, exec: Executor) {
    TypedPrims(p, s) && TypedSpec(spec, s) && ClosureBased(spec, p) == Ok(exec)
  }

  /** All expressions of a typed specification compile. */
  lemma TypedCompiles(spec: Spec, p: Prims, s: Signature)
    requires TypedPrims(p, s) && TypedSpec(spec, s)
    ensures ClosureBased(spec, p).Ok?
  {
    var empty := Ctx((_: StreamRef) => Value.None, (_: StreamRef) => false, (_: StreamRef, _: nat) => Panic,
                     (_: nat) => Panic);
    assert TypedCtx(empty, s);
    forall o | 0 <= o < |spec.outputs| ensures Compile(p, spec.outputs[o].expr).Ok? {
      CompiledIsInterpreted(p, s, spec.outputs[o].expr, empty);
    }
  }

  lemma StreamRunsAlike(spec: Spec, p: Prims, s: Signature, exec: Executor, st: State, o: nat, ts: Time)
    requires Compiled(spec, p, s, exec) && TypedState(spec, st, s) && Shaped(spec, st) && Evaluating(st, ts)
    ensures EvalStream(spec, exec, st, o, ts) == EvalStream(spec, Interpreted(spec, p), st, o, ts)
  {
    if o < |spec.outputs| {
      MachineCtxTyped(spec, s, st, ts);
      CompiledIsInterpreted(p, s, spec.outputs[o].expr, MachineCtx(spec, st, ts));
    }
  }

  lemma {:induction false} StreamsRunAlike(spec: Spec, p: Prims, s: Signature, exec: Executor, st: State,
                                           order: seq<nat>, ts: Time)
    requires Compiled(spec, p, s, exec) && TypedState(spec, st, s) && Shaped(spec, st) && Evaluating(st, ts)
    ensures var r := EvalStreams(spec, Interpreted(spec, p), st, order, ts);
            EvalStreams(spec, exec, st, order, ts) == r && (r.Ok? ==> TypedState(spec, r.value, s))
    decreases |order|
  {
    if order != [] {
      StreamRunsAlike(spec, p, s, exec, st, order[0], ts);
      StreamTyped(spec, p, s, st, order[0], ts);
      var next := EvalStream(spec, Interpreted(spec, p), st, order[0], ts);
      if next.Ok? {
        StreamsRunAlike(spec, p, s, exec, next.value, order[1..], ts);
      }
    }
  }

  lemma {:induction false} LayerRunsAlike(spec: Spec, p: Prims, s: Signature, exec: Executor, st: State,
                                          layer: seq<nat>, ts: Time)
    requires Compiled(spec, p, s, exec) && TypedState(spec, st, s) && Shaped(spec, st) && Evaluating(st, ts)
    ensures var r := EvalLayer(spec, Interpreted(spec, p), st, layer, ts);
            EvalLayer(spec, exec, st, layer, ts) == r
                && (r.Ok? ==> TypedState(spec, r.value, s) && Evaluating(r.value, ts))
    decreases |layer|
  {
    if layer != [] {
      StreamRunsAlike(spec, p, s, exec, st, layer[0], ts);
      StreamTyped(spec, p, s, st, layer[0], ts);
      var next := EvalIfActive(spec, Interpreted(spec, p), st, layer[0], ts);
      if next.Ok? {
        LayerRunsAlike(spec, p, s, exec, next.value, layer[1..], ts);
      }
    }
  }

  lemma {:induction false} LayersRunAlike(spec: Spec, p: Prims, s: Signature, exec: Executor, st: State,
                                          layers: seq<seq<nat>>, ts: Time)
    requires Compiled(spec, p, s, exec) && TypedState(spec, st, s) && Shaped(spec, st) && Evaluating(st, ts)
    ensures var r := EvalLayers(spec, Interpreted(spec, p), st, layers, ts);
            EvalLayers(spec, exec, st, layers, ts) == r && (r.Ok? ==> TypedState(spec, r.value, s))
    decreases |layers|
  {
    if layers != [] {
      LayerRunsAlike(spec, p, s, exec, st, layers[0], ts);
      var next := EvalLayer(spec, Interpreted(spec, p), st, layers[0], ts);
      if next.Ok? {
        LayersRunAlike(spec, p, s, exec, next.value, layers[1..], ts);
      }
    }
  }

  lemma StepRunsAlike(spec: Spec, p: Prims, s: Signature, exec: Executor, st: State, step: Step)
    requires Compiled(spec, p, s, exec) && TypedState(spec, st, s) && Shaped(spec, st) && TypedStep(step, s)
    ensures var r := RunStep(spec, Interpreted(spec, p), st, step);
            RunStep(spec, exec, st, step) == r && (r.Ok? ==> TypedState(spec, r.value, s))
  {
    if InOrder(st.last, step.ts) {
      var started := Started(st, step.ts);
      StartedTyped(spec, s, st, step.ts);
      match step
      case Event(vals, ts) =>
        AcceptedTyped(spec, s, started, vals, |vals|, ts);
        var accepted := AcceptInputs(spec, started, vals, |vals|, ts);
        if accepted.Ok? {
          PrepareTyped(spec, s, accepted.value, ts);
          LayersRunAlike(spec, p, s, exec, PrepareEvaluation(accepted.value, ts), spec.layers, ts);
        }
      case Deadline(due, ts) =>
        PrepareTyped(spec, s, started, ts);
        StreamsRunAlike(spec, p, s, exec, PrepareEvaluation(started, ts), due, ts);
    }
  }

  lemma {:induction false} TypedRunsAlike(spec: Spec, p: Prims, s: Signature, exec: Executor, run: seq<Step>)
    requires Compiled(spec, p, s, exec) && forall n | 0 <= n < |run| :: TypedStep(run[n], s)
    ensures var r := RunAll(spec, Interpreted(spec, p), run);
            RunAll(spec, exec, run) == r && (r.Ok? ==> TypedState(spec, r.value, s))
    decreases |run|
  {
    if run == [] {
      InitiallyTyped(spec, s);
    } else {
      TypedRunsAlike(spec, p, s, exec, run[..|run| - 1]);
      var st := RunAll(spec, Interpreted(spec, p), run[..|run| - 1]);
      if st.Ok? {
        StepRunsAlike(spec, p, s, exec, st.value, run[|run| - 1]);
      }
    }
  }

  /** The choice of evaluator does not matter, panics included: compilation succeeds, and every run is the same. */
  lemma RunsAlike(spec: Spec, p: Prims, s: Signature, run: seq<Step>)
    requires TypedPrims(p, s) && TypedSpec(spec, s) && forall n | 0 <= n < |run| :: TypedStep(run[n], s)
    ensures ClosureBased(spec, p).Ok?
    ensures RunAll(spec, ClosureBased(spec, p).value, run) == RunAll(spec, Interpreted(spec, p), run)
  {
    TypedCompiles(spec, p, s);
    TypedRunsAlike(spec, p, s, ClosureBased(spec, p).value, run);
  }
}
