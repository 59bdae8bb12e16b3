/** One evaluation step of the interpreter, as a function on the stores and freshness sets. */
module Evaluator {
  import opened Values
  import opened Expressions
  import opened Closures
  import opened Activations
  import opened Stores
  import opened WindowLogs

  datatype Clock = EventDriven(ac: Activation<StreamRef>) | Periodic

  datatype OutputStream = OutputStream(expr: Expr, clock: Clock, bound: MemorizationBound, isTrigger: bool)

  /**
   A window over a stream. What its deque reports depends on everything that has happened to it;
   `value` is what it should report, the aggregate of the samples it has accepted.
   */
  datatype SlidingWindow = SlidingWindow(
    target: StreamRef,
    report: (seq<Operation>, Time) -> Outcome<Value>,
    value: (seq<Sample>, Time) -> Outcome<Value>)

  /** When its last operation is as recent as the lookup, the deque reports the aggregate. */
  ghost predicate Faithful(window: SlidingWindow) {
    forall log, ts | UpToDate(0, log, ts) :: window.report(log, ts) == window.value(AcceptedIn(log), ts)
  }

  datatype Spec = Spec(
    inputs: seq<MemorizationBound>,
    outputs: seq<OutputStream>,
    windows: seq<SlidingWindow>,
    layers: seq<seq<nat>>,
    linked: set<nat>)

  /**
   The mutable part of the evaluator. `logs` holds what has happened to each window, and `fired`
   collects the reports of triggers with their times.
   */
  datatype State = State(
    inputs: seq<seq<Value>>,
    outputs: seq<seq<Value>>,
    freshIn: set<nat>,
    freshOut: set<nat>,
    logs: seq<seq<Operation>>,
    fired: multiset<(nat, Time)>,
    last: Option<Time>)

  /** An input event (absent inputs are `None`), or a deadline with its due streams. */
  datatype Step = Event(vals: seq<Value>, ts: Time) | Deadline(due: seq<nat>, ts: Time)

  /** How an output is evaluated in a context. */
  type Executor = (nat, Ctx) -> Outcome<Value>

  function Interpreted(spec: Spec, p: Prims): Executor {
    (o: nat, c: Ctx) => if o < |spec.outputs| then EvalExpr(p, spec.outputs[o].expr, c) else Panic
  }

  /** All expressions are compiled when the evaluator is built. */
  function ClosureBased(spec: Spec, p: Prims): Outcome<Executor> {
    if exists o :: 0 <= o < |spec.outputs| && Compile(p, spec.outputs[o].expr).Panic? then Panic
    else Ok((o: nat, c: Ctx) => if o < |spec.outputs| then Compile(p, spec.outputs[o].expr).value(c) else Panic)
  }

  function InitialState(spec: Spec): State {
    State(seq(|spec.inputs|, _ => []), seq(|spec.outputs|, _ => []), {}, {}, seq(|spec.windows|, _ => []),
          multiset{}, Nothing)
  }

  predicate Stored(spec: Spec, x: StreamRef) {
    match x
    case InRef(i) => i < |spec.inputs|
    case OutRef(o) => o < |spec.outputs| && !spec.outputs[o].isTrigger
  }

  function BoundOf(spec: Spec, x: StreamRef): MemorizationBound
    requires Stored(spec, x)
  {
    match x
    case InRef(i) => spec.inputs[i]
    case OutRef(o) => spec.outputs[o].bound
  }

  /** The buffer of a stream; references outside the store do not occur in well-formed specifications. */
  function BufferOf(st: State, x: StreamRef): seq<Value> {
    match x
    case InRef(i) => if i < |st.inputs| then st.inputs[i] else []
    case OutRef(o) => if o < |st.outputs| then st.outputs[o] else []
  }

  predicate IsFresh(st: State, x: StreamRef) {
    match x
    case InRef(i) => i in st.freshIn
    case OutRef(o) => o in st.freshOut
  }

  function WindowReport(spec: Spec, logs: seq<seq<Operation>>, w: nat, ts: Time): Outcome<Value> {
    if w < |spec.windows| && w < |logs| then spec.windows[w].report(logs[w], ts) else Panic
  }

  function MachineCtx(spec: Spec, st: State, ts: Time): Ctx {
    Ctx(x => ValueAt(BufferOf(st, x), 0),
        x => IsFresh(st, x),
        (x: StreamRef, k: nat) => LookupPast(BufferOf(st, x), IsFresh(st, x), k),
        (w: nat) => WindowReport(spec, st.logs, w, ts))
  }

  /** The stream that informs a window of its values: its target, if the two are linked. */
  function Source(spec: Spec, w: nat): Option<StreamRef>
    requires w < |spec.windows|
  {
    if w in spec.linked then Just(spec.windows[w].target) else Nothing
  }

  /** Every window that is linked to `x` accepts the value. */
  function Feed(spec: Spec, logs: seq<seq<Operation>>, x: StreamRef, v: Value, ts: Time): (r: seq<seq<Operation>>)
    requires |logs| == |spec.windows|
    ensures |r| == |logs|
  {
    seq(|logs|, w requires 0 <= w < |logs| =>
      if Source(spec, w) == Just(x) then logs[w] + [Accept(Sample(v, ts))] else logs[w])
  }

  /** Every window is updated to the time of the evaluation. */
  function UpdateAll(logs: seq<seq<Operation>>, ts: Time): (r: seq<seq<Operation>>)
    ensures |r| == |logs|
  {
    seq(|logs|, w requires 0 <= w < |logs| => logs[w] + [Update(ts)])
  }

  predicate Shaped(spec: Spec, st: State) {
    |st.inputs| == |spec.inputs| && |st.outputs| == |spec.outputs| && |st.logs| == |spec.windows|
  }

  function AcceptInput(spec: Spec, st: State, i: nat, v: Value, ts: Time): (r: State)
    requires Shaped(spec, st) && i < |spec.inputs|
    ensures Shaped(spec, r) && r.last == st.last
  {
    st.(inputs := st.inputs[i := Pushed(st.inputs[i], spec.inputs[i], v)],
        freshIn := st.freshIn + {i},
        logs := Feed(spec, st.logs, InRef(i), v, ts))
  }

  /** Accepts the present values of the first `n` inputs; a value for an unknown input is out of bounds. */
  function AcceptInputs(spec: Spec, st: State, vals: seq<Value>, n: nat, ts: Time): (r: Outcome<State>)
    requires Shaped(spec, st) && n <= |vals|
    ensures r.Ok? ==> Shaped(spec, r.value) && r.value.last == st.last
  {
    if n == 0 then Ok(st) else
    var before :- AcceptInputs(spec, st, vals, n - 1, ts);
    if vals[n - 1].None? then Ok(before)
    else if n - 1 >= |spec.inputs| then Panic
    else Ok(AcceptInput(spec, before, n - 1, vals[n - 1], ts))
  }

  /** Triggers report, all other outputs store their value and become fresh; windows over the output accept it. */
  function StoreValue(spec: Spec, st: State, o: nat, v: Value, ts: Time): (r: State)
    requires Shaped(spec, st) && o < |spec.outputs|
    ensures Shaped(spec, r) && r.freshIn == st.freshIn && r.last == st.last
  {
    var stored :=
      if spec.outputs[o].isTrigger then
        st.(fired := if v == Bool(true) then st.fired + multiset{(o, ts)} else st.fired)
      else
        st.(outputs := st.outputs[o := Pushed(st.outputs[o], spec.outputs[o].bound, v)],
            freshOut := st.freshOut + {o});
    stored.(logs := Feed(spec, st.logs, OutRef(o), v, ts))
  }

  /** Evaluates one output. */
  function EvalStream(spec: Spec, exec: Executor, st: State, o: nat, ts: Time): (r: Outcome<State>)
    requires Shaped(spec, st)
    ensures r.Ok? ==>
              Shaped(spec, r.value) && r.value.freshIn == st.freshIn && r.value.last == st.last && o < |spec.outputs|
  {
    if o >= |spec.outputs| then Panic else
    var v :- exec(o, MachineCtx(spec, st, ts));
    Ok(StoreValue(spec, st, o, v, ts))
  }

  function EvalStreams(spec: Spec, exec: Executor, st: State, order: seq<nat>, ts: Time): (r: Outcome<State>)
    requires Shaped(spec, st)
    ensures r.Ok? ==> Shaped(spec, r.value) && r.value.last == st.last
    decreases |order|
  {
    if order == [] then Ok(st) else
    var next :- EvalStream(spec, exec, st, order[0], ts);
    EvalStreams(spec, exec, next, order[1..], ts)
  }

  function ConditionOf(spec: Spec, o: nat): Outcome<ActivationCondition> {
    if o >= |spec.outputs| then Panic
    else if spec.outputs[o].clock.EventDriven? then NewCondition(spec.outputs[o].clock.ac)
    else Ok(TimeDriven)
  }

  /** Evaluates one event-driven output if its activation condition is met. */
  function EvalIfActive(spec: Spec, exec: Executor, st: State, o: nat, ts: Time): (r: Outcome<State>)
    requires Shaped(spec, st)
    ensures r.Ok? ==> Shaped(spec, r.value) && r.value.last == st.last
  {
    var condition :- ConditionOf(spec, o);
    var active :- EvalCondition(condition, st.freshIn);
    if active then EvalStream(spec, exec, st, o, ts) else Ok(st)
  }

  function EvalLayer(spec: Spec, exec: Executor, st: State, layer: seq<nat>, ts: Time): (r: Outcome<State>)
    requires Shaped(spec, st)
    ensures r.Ok? ==> Shaped(spec, r.value) && r.value.last == st.last
    decreases |layer|
  {
    if layer == [] then Ok(st) else
    var next :- EvalIfActive(spec, exec, st, layer[0], ts);
    EvalLayer(spec, exec, next, layer[1..], ts)
  }

  function EvalLayers(spec: Spec, exec: Executor, st: State, layers: seq<seq<nat>>, ts: Time): (r: Outcome<State>)
    requires Shaped(spec, st)
    ensures r.Ok? ==> Shaped(spec, r.value) && r.value.last == st.last
    decreases |layers|
  {
    if layers == [] then Ok(st) else
    var next :- EvalLayer(spec, exec, st, layers[0], ts);
    EvalLayers(spec, exec, next, layers[1..], ts)
  }

  function ClearFreshness(st: State): State {
    st.(freshIn := {}, freshOut := {})
  }

  predicate InOrder(last: Option<Time>, ts: Time) {
    last.Just? ==> last.value <= ts
  }

  function PrepareEvaluation(st: State, ts: Time): State {
    st.(logs := UpdateAll(st.logs, ts))
  }

  /** One event or one deadline; time running backwards fails an assertion. */
  function RunStep(spec: Spec, exec: Executor, st: State, step: Step): (r: Outcome<State>)
    requires Shaped(spec, st)
    ensures r.Ok? ==> Shaped(spec, r.value) && r.value.last == Just(step.ts)
  {
    if !InOrder(st.last, step.ts) then Panic else
    var cleared := ClearFreshness(st).(last := Just(step.ts));
    match step
    case Event(vals, ts) =>
      var accepted :- AcceptInputs(spec, cleared, vals, |vals|, ts);
      EvalLayers(spec, exec, PrepareEvaluation(accepted, ts), spec.layers, ts)
    case Deadline(due, ts) =>
      var evaluated :- EvalStreams(spec, exec, PrepareEvaluation(cleared, ts), due, ts);
      Ok(ClearFreshness(evaluated))
  }

  function RunAll(spec: Spec, exec: Executor, run: seq<Step>): (r: Outcome<State>)
    ensures r.Ok? ==> Shaped(spec, r.value)
  {
    if run == [] then Ok(InitialState(spec)) else
    var st :- RunAll(spec, exec, run[..|run| - 1]);
    RunStep(spec, exec, st, run[|run| - 1])
  }
}
