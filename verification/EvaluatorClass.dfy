/** The evaluator as the interpreter runs it: stores, freshness sets and window logs updated in place. */
module EvaluatorClass {
  import opened Values
  import opened Expressions
  import opened Activations
  import opened Stores
  import opened WindowLogs
  import Steps = Evaluator

  class Evaluator {
    const spec: Steps.Spec
    const exec: Steps.Executor
    const conditions: seq<Outcome<ActivationCondition>>
    const inputs: seq<InstanceStore>
    const outputs: seq<InstanceStore>
    var logs: seq<seq<Operation>>
    var freshIn: set<nat>
    var freshOut: set<nat>
    var fired: multiset<(nat, Time)>
    var timeLastEvent: Option<Time>

    ghost predicate Valid()
      reads this
    {
      && |inputs| == |spec.inputs| && |outputs| == |spec.outputs| && |logs| == |spec.windows|
      && |conditions| == |spec.outputs|
      && (forall i | 0 <= i < |inputs| :: inputs[i].bound == spec.inputs[i])
      && (forall o | 0 <= o < |outputs| :: outputs[o].bound == spec.outputs[o].bound)
      && (forall o | 0 <= o < |outputs| :: conditions[o] == Steps.ConditionOf(spec, o))
      && (forall i, j | 0 <= i < j < |inputs| :: inputs[i] != inputs[j])
      && (forall o, q | 0 <= o < q < |outputs| :: outputs[o] != outputs[q])
      && (forall i, o | 0 <= i < |inputs| && 0 <= o < |outputs| :: inputs[i] != outputs[o])
    }

    /** The abstract state the step functions work on. */
    function State(): Steps.State
      reads this, inputs, outputs
    {
      Steps.State(
        seq(|inputs|, i requires 0 <= i < |inputs| reads inputs => inputs[i].buffer),
        seq(|outputs|, o requires 0 <= o < |outputs| reads outputs => outputs[o].buffer),
        freshIn, freshOut, logs, fired, timeLastEvent)
    }

    constructor (spec: Steps.Spec, exec: Steps.Executor)
      ensures Valid() && this.spec == spec && this.exec == exec
      ensures fresh(inputs) && fresh(outputs)
      ensures State() == Steps.InitialState(spec)
    {
      var ins: seq<InstanceStore>, outs: seq<InstanceStore> := [], [];
      var conds: seq<Outcome<ActivationCondition>> := [];
      for i := 0 to |spec.inputs|
        invariant |ins| == i && fresh(ins)
        invariant forall j | 0 <= j < i :: ins[j].bound == spec.inputs[j] && ins[j].buffer == []
        invariant forall j, k | 0 <= j < k < i :: ins[j] != ins[k]
      {
        var store := new InstanceStore(spec.inputs[i]);
        ins := ins + [store];
      }
      for o := 0 to |spec.outputs|
        invariant |outs| == o && fresh(outs) && |conds| == o
        invariant forall j | 0 <= j < o :: conds[j] == Steps.ConditionOf(spec, j)
        invariant forall j | 0 <= j < o :: outs[j].bound == spec.outputs[j].bound && outs[j].buffer == []
        invariant forall j, k | 0 <= j < k < o :: outs[j] != outs[k]
        invariant forall j, k | 0 <= j < |ins| && 0 <= k < o :: ins[j] != outs[k]
        invariant fresh(ins) && forall j | 0 <= j < |ins| :: ins[j].bound == spec.inputs[j] && ins[j].buffer == []
      {
        var store := new InstanceStore(spec.outputs[o].bound);
        outs := outs + [store];
        var condition: Outcome<ActivationCondition> := Ok(TimeDriven);
        if spec.outputs[o].clock.EventDriven? {
          condition := BuildCondition(spec.outputs[o].clock.ac);
        }
        conds := conds + [condition];
      }
      this.spec, this.exec, conditions, inputs, outputs := spec, exec, conds, ins, outs;
      logs := seq(|spec.windows|, _ => []);
      freshIn, freshOut, fired, timeLastEvent := {}, {}, multiset{}, Nothing;
    }

    method ClearFreshness()
      requires Valid()
      modifies this
      ensures Valid() && State() == Steps.ClearFreshness(old(State()))
    {
      freshIn := {};
      freshOut := {};
    }

    /** Every window that is linked to the stream accepts the value. */
    method FeedWindows(x: StreamRef, v: Value, ts: Time)
      requires Valid()
      modifies this`logs
      ensures Valid() && logs == Steps.Feed(spec, old(logs), x, v, ts)
    {
      for w := 0 to |logs|
        invariant |logs| == |spec.windows|
        invariant forall u | 0 <= u < w :: logs[u] == Steps.Feed(spec, old(logs), x, v, ts)[u]
        invariant forall u | w <= u < |logs| :: logs[u] == old(logs)[u]
      {
        if Steps.Source(spec, w) == Just(x) {
          logs := logs[w := logs[w] + [Accept(Sample(v, ts))]];
        }
      }
    }

    /** Updates all windows to the time of the evaluation. */
    method PrepareEvaluation(ts: Time)
      requires Valid()
      modifies this`logs
      ensures Valid() && State() == Steps.PrepareEvaluation(old(State()), ts)
    {
      for w := 0 to |logs|
        invariant |logs| == |spec.windows|
        invariant forall u | 0 <= u < w :: logs[u] == Steps.UpdateAll(old(logs), ts)[u]
        invariant forall u | w <= u < |logs| :: logs[u] == old(logs)[u]
      {
        logs := logs[w := logs[w] + [Update(ts)]];
      }
      assert logs == Steps.UpdateAll(old(logs), ts);
      assert State().inputs == old(State()).inputs && State().outputs == old(State()).outputs;
    }

    method AcceptInput(i: nat, v: Value, ts: Time)
      requires Valid() && i < |spec.inputs|
      modifies this, inputs[i]
      ensures Valid() && State() == Steps.AcceptInput(spec, old(State()), i, v, ts)
    {
      inputs[i].PushValue(v);
      freshIn := freshIn + {i};
      FeedWindows(InRef(i), v, ts);
      assert State().inputs == Steps.AcceptInput(spec, old(State()), i, v, ts).inputs;
      assert State().outputs == old(State()).outputs;
    }

    method AcceptInputs(event: seq<Value>, ts: Time) returns (ok: bool)
      requires Valid()
      modifies this, inputs
      ensures Valid()
      ensures ok <==> Steps.AcceptInputs(spec, old(State()), event, |event|, ts).Ok?
      ensures ok ==> State() == Steps.AcceptInputs(spec, old(State()), event, |event|, ts).value
    {
      ghost var start := State();
      for i := 0 to |event|
        invariant Valid()
        invariant Steps.AcceptInputs(spec, start, event, i, ts) == Ok(State())
      {
        if !event[i].None? {
          if i >= |inputs| {
            StaysPanicked(spec, start, event, i + 1, |event|, ts);
            return false;
          }
          AcceptInput(i, event[i], ts);
        }
      }
      return true;
    }

    method EvalStream(o: nat, ts: Time) returns (ok: bool)
      requires Valid()
      modifies this, outputs
      ensures Valid()
      ensures ok <==> Steps.EvalStream(spec, exec, old(State()), o, ts).Ok?
      ensures ok ==> State() == Steps.EvalStream(spec, exec, old(State()), o, ts).value
    {
      if o >= |outputs| {
        return false;
      }
      var res := exec(o, Steps.MachineCtx(spec, State(), ts));
      if res.Panic? {
        return false;
      }
      if spec.outputs[o].isTrigger {
        if res.value == Bool(true) {
          fired := fired + multiset{(o, ts)};
        }
      } else {
        outputs[o].PushValue(res.value);
        freshOut := freshOut + {o};
      }
      FeedWindows(OutRef(o), res.value, ts);
      ghost var expected := Steps.EvalStream(spec, exec, old(State()), o, ts).value;
      assert State().inputs == old(State()).inputs;
      assert State().outputs == expected.outputs;
      return true;
    }

    method EvalEventDrivenOutput(o: nat, ts: Time) returns (ok: bool)
      requires Valid()
      modifies this, outputs
      ensures Valid()
      ensures ok <==> Steps.EvalIfActive(spec, exec, old(State()), o, ts).Ok?
      ensures ok ==> State() == Steps.EvalIfActive(spec, exec, old(State()), o, ts).value
    {
      if o >= |outputs| || conditions[o].Panic? {
        return false;
      }
      var active := EvalCondition(conditions[o].value, freshIn);
      if active.Panic? {
        return false;
      }
      ok := true;
      if active.value {
        ok := EvalStream(o, ts);
      }
    }

    method EvalEventDrivenOutputs(layer: seq<nat>, ts: Time) returns (ok: bool)
      requires Valid()
      modifies this, outputs
      ensures Valid()
      ensures ok <==> Steps.EvalLayer(spec, exec, old(State()), layer, ts).Ok?
      ensures ok ==> State() == Steps.EvalLayer(spec, exec, old(State()), layer, ts).value
    {
      ghost var start := State();
      for i := 0 to |layer|
        invariant Valid()
        invariant Steps.EvalLayer(spec, exec, start, layer, ts) == Steps.EvalLayer(spec, exec, State(), layer[i..], ts)
      {
        assert layer[i..][0] == layer[i] && layer[i..][1..] == layer[i + 1..];
        var next := EvalEventDrivenOutput(layer[i], ts);
        if !next {
          return false;
        }
      }
      return true;
    }

    method EvalAllEventDrivenOutputs(ts: Time) returns (ok: bool)
      requires Valid()
      modifies this, outputs
      ensures Valid()
      ensures var prepared := Steps.PrepareEvaluation(old(State()), ts);
              ok <==> Steps.EvalLayers(spec, exec, prepared, spec.layers, ts).Ok?
      ensures var prepared := Steps.PrepareEvaluation(old(State()), ts);
              ok ==> State() == Steps.EvalLayers(spec, exec, prepared, spec.layers, ts).value
    {
      PrepareEvaluation(ts);
      ghost var start := State();
      for i := 0 to |spec.layers|
        invariant Valid()
        invariant Steps.EvalLayers(spec, exec, start, spec.layers, ts)
                  == Steps.EvalLayers(spec, exec, State(), spec.layers[i..], ts)
      {
        assert spec.layers[i..][0] == spec.layers[i] && spec.layers[i..][1..] == spec.layers[i + 1..];
        var next := EvalEventDrivenOutputs(spec.layers[i], ts);
        if !next {
          return false;
        }
      }
      return true;
    }

    method EvalEvent(event: seq<Value>, ts: Time) returns (ok: bool)
      requires Valid()
      modifies this, inputs, outputs
      ensures Valid()
      ensures ok <==> Steps.RunStep(spec, exec, old(State()), Steps.Event(event, ts)).Ok?
      ensures ok ==> State() == Steps.RunStep(spec, exec, old(State()), Steps.Event(event, ts)).value
    {
      if timeLastEvent.Just? && timeLastEvent.value > ts {
        return false;
      }
      timeLastEvent := Just(ts);
      assert State().inputs == old(State()).inputs && State().outputs == old(State()).outputs;
      ClearFreshness();
      ok := AcceptInputs(event, ts);
      if ok {
        ok := EvalAllEventDrivenOutputs(ts);
      }
    }

    method EvalTimeDrivenOutputs(due: seq<nat>, ts: Time) returns (ok: bool)
      requires Valid()
      modifies this, outputs
      ensures Valid()
      ensures ok <==> Steps.RunStep(spec, exec, old(State()), Steps.Deadline(due, ts)).Ok?
      ensures ok ==> State() == Steps.RunStep(spec, exec, old(State()), Steps.Deadline(due, ts)).value
    {
      if timeLastEvent.Just? && timeLastEvent.value > ts {
        return false;
      }
      timeLastEvent := Just(ts);
      assert State().inputs == old(State()).inputs && State().outputs == old(State()).outputs;
      ClearFreshness();
      PrepareEvaluation(ts);
      ghost var start := State();
      for i := 0 to |due|
        invariant Valid()
        invariant Steps.EvalStreams(spec, exec, start, due, ts) == Steps.EvalStreams(spec, exec, State(), due[i..], ts)
      {
        assert due[i..][0] == due[i] && due[i..][1..] == due[i + 1..];
        var next := EvalStream(due[i], ts);
        if !next {
          return false;
        }
      }
      ClearFreshness();
      return true;
    }
  }

  lemma {:induction false} StaysPanicked(spec: Steps.Spec, st: Steps.State, event: seq<Value>, i: nat, n: nat, ts: Time)
    requires Steps.Shaped(spec, st) && i <= n <= |event| && Steps.AcceptInputs(spec, st, event, i, ts).Panic?
    ensures Steps.AcceptInputs(spec, st, event, n, ts).Panic?
    decreases n
  {
    if i < n {
      StaysPanicked(spec, st, event, i, n - 1, ts);
    }
  }
}
