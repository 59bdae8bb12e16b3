/**
 The declarative reading of a specification over full, unbounded histories, and the proof
 that the evaluator with its bounded buffers, freshness sets and layers computes exactly that.
 */
module Histories {
  import opened Sequences
  import opened Values
  import opened Expressions
  import opened Activations
  import opened Stores
  import opened WindowLogs
  import opened Evaluator
  import opened OneStep

  /** All values of one step: the inputs that arrived and the outputs that were active. */
  datatype Row = Row(ts: Time, ins: map<nat, Value>, outs: map<nat, Value>)

  type Trace = seq<Row>

  function ValueIn(row: Row, x: StreamRef): Option<Value> {
    match x
    case InRef(i) => if i in row.ins then Just(row.ins[i]) else Nothing
    case OutRef(o) => if o in row.outs then Just(row.outs[o]) else Nothing
  }

  /** All values of a stream, oldest first. */
  function History(t: Trace, x: StreamRef): seq<Value> {
    if t == [] then [] else
    var before := History(t[..|t| - 1], x);
    match ValueIn(t[|t| - 1], x)
    case Nothing => before
    case Just(v) => before + [v]
  }

  /** All values of a stream with their times, oldest first. */
  function TimedHistory(t: Trace, x: StreamRef): seq<Sample> {
    if t == [] then [] else
    var before := TimedHistory(t[..|t| - 1], x);
    match ValueIn(t[|t| - 1], x)
    case Nothing => before
    case Just(v) => before + [Sample(v, t[|t| - 1].ts)]
  }

  /** Every report of a trigger whose condition was true. */
  function Fired(spec: Spec, t: Trace): multiset<(nat, Time)> {
    if t == [] then multiset{} else
    var row := t[|t| - 1];
    Fired(spec, t[..|t| - 1]) + multiset(Reports(spec, row.outs, row.outs.Keys, row.ts))
  }

  /** What a window has accepted that is informed by `src`; without a source, nothing. */
  function SourceHistory(t: Trace, src: Option<StreamRef>): seq<Sample> {
    if src.Just? then TimedHistory(t, src.value) else []
  }

  /** The accept of a current input. */
  function InputAccept(row: Row, src: Option<StreamRef>): seq<Operation> {
    if src.Just? && src.value.InRef? && src.value.ix in row.ins then [Accept(Sample(row.ins[src.value.ix], row.ts))]
    else []
  }

  /** The accept of a current output. */
  function OutputAccept(row: Row, src: Option<StreamRef>): seq<Operation> {
    if IsOutput(src) && src.value.ix in row.outs then [Accept(Sample(row.outs[src.value.ix], row.ts))] else []
  }

  /**
   Everything that happens to a window with source `src`: in each step an input is accepted before
   the update and an output after it.
   */
  function Operations(t: Trace, src: Option<StreamRef>): seq<Operation> {
    if t == [] then [] else
    var row := t[|t| - 1];
    Operations(t[..|t| - 1], src) + InputAccept(row, src) + [Update(row.ts)] + OutputAccept(row, src)
  }

  /**
   What output `o` observes in the step `row` after the steps `past`:
   the current or last value; whether there is a current value; the `k`-th most recent value
   strictly before this step; and a window over all values so far of the stream that informs it, its
   own current value excepted.
   */
  function DeclarativeCtx(spec: Spec, past: Trace, row: Row, o: nat): Ctx {
    Ctx((x: StreamRef) => Latest(History(past + [row], x)),
        (x: StreamRef) => ValueIn(row, x).Just?,
        (x: StreamRef, k: nat) => if k >= 1 then Ok(KthRecent(History(past, x), k)) else Panic,
        (w: nat) =>
          if w < |spec.windows| then
            var src := Source(spec, w);
            spec.windows[w].value(SourceHistory(if src == Just(OutRef(o)) then past else past + [row], src), row.ts)
          else Panic)
  }

  function Present(vals: seq<Value>): map<nat, Value> {
    map i: nat | 0 <= i < |vals| && !vals[i].None? :: vals[i]
  }

  ghost predicate IsActive(spec: Spec, o: nat, ins: set<nat>) {
    o < |spec.outputs| && spec.outputs[o].clock.EventDriven? && Holds(spec.outputs[o].clock.ac, LiveInputs(ins))
  }

  /** The outputs that must have a value in a step. */
  ghost predicate HasActiveOutputs(spec: Spec, step: Step, row: Row) {
    match step
    case Event(vals, _) =>
      && row.ins == Present(vals)
      && (forall i | i in row.ins :: i < |spec.inputs|)
      && (forall o :: o in row.outs <==> o in Flatten(spec.layers) && IsActive(spec, o, row.ins.Keys))
    case Deadline(due, _) =>
      && row.ins == map[]
      && (forall o :: o in row.outs <==> o in due)
  }

  /** The declarative equations of one step. */
  ghost predicate SatisfiesEquations(spec: Spec, p: Prims, past: Trace, step: Step, row: Row) {
    && row.ts == step.ts
    && (past != [] ==> past[|past| - 1].ts <= row.ts)
    && HasActiveOutputs(spec, step, row)
    && forall o | o in row.outs ::
         o < |spec.outputs| && EvalExpr(p, spec.outputs[o].expr, DeclarativeCtx(spec, past, row, o)) == Ok(row.outs[o])
  }

  /** A trace is a model of the specification over a run if every step satisfies its equations. */
  ghost predicate IsModel(spec: Spec, p: Prims, run: seq<Step>, t: Trace) {
    && |t| == |run|
    && (run != [] ==>
          && IsModel(spec, p, run[..|run| - 1], t[..|t| - 1])
          && SatisfiesEquations(spec, p, t[..|t| - 1], run[|run| - 1], t[|t| - 1]))
  }

  ghost predicate Ascending(t: Trace) {
    forall i, j | 0 <= i < j < |t| :: t[i].ts <= t[j].ts
  }

  lemma AscendingSnoc(t: Trace, row: Row)
    requires Ascending(t) && (t != [] ==> t[|t| - 1].ts <= row.ts)
    ensures Ascending(t + [row])
  {
    forall i | 0 <= i < |t| ensures t[i].ts <= row.ts {
      assert i < |t| - 1 ==> t[i].ts <= t[|t| - 1].ts;
    }
  }

  /** The evaluator's state holds the newest values of every history, the log of every window and all reports. */
  ghost predicate Holding(spec: Spec, st: State, t: Trace) {
    && Shaped(spec, st)
    && (forall x | Stored(spec, x) :: Represents(BufferOf(st, x), BoundOf(spec, x), History(t, x)))
    && (forall w | 0 <= w < |spec.windows| :: st.logs[w] == Operations(t, Source(spec, w)))
    && st.fired == Fired(spec, t)
    && st.last == (if t == [] then Nothing else Just(t[|t| - 1].ts))
    && Ascending(t)
  }

  /** What the frontend guarantees of the orders: layers and due lists respect same-instant accesses. */
  ghost predicate WellOrdered(spec: Spec, run: seq<Step>) {
    && Topological(spec, Flatten(spec.layers))
    && (forall o: nat | o in Flatten(spec.layers) ::
          o < |spec.outputs| && spec.outputs[o].clock.EventDriven? && Runnable(spec.outputs[o].clock.ac))
    && forall n | 0 <= n < |run| && run[n].Deadline? :: Topological(spec, run[n].due)
  }

  // ---------- layers evaluate the active outputs in order ----------

  ghost function ActiveAmong(spec: Spec, order: seq<nat>, ins: set<nat>): seq<nat> {
    if order == [] then []
    else (if IsActive(spec, order[0], ins) then [order[0]] else []) + ActiveAmong(spec, order[1..], ins)
  }

  ghost predicate AllRunnable(spec: Spec, order: seq<nat>) {
    forall o: nat | o in order :: o < |spec.outputs| && spec.outputs[o].clock.EventDriven?
        && Runnable(spec.outputs[o].clock.ac)
  }

  lemma {:induction false} LayerEvaluatesActive(spec: Spec, exec: Executor, st: State, layer: seq<nat>, ts: Time)
    requires Shaped(spec, st) && AllRunnable(spec, layer)
    ensures EvalLayer(spec, exec, st, layer, ts)
            == EvalStreams(spec, exec, st, ActiveAmong(spec, layer, st.freshIn), ts)
    ensures EvalLayer(spec, exec, st, layer, ts).Ok? ==>
              EvalLayer(spec, exec, st, layer, ts).value.freshIn == st.freshIn
    decreases |layer|
  {
    if layer != [] {
      var o := layer[0];
      assert o in layer && forall q | q in layer[1..] :: q in layer;
      ConditionMeaning(spec.outputs[o].clock.ac, st.freshIn);
      var next := EvalIfActive(spec, exec, st, o, ts);
      if next.Ok? {
        LayerEvaluatesActive(spec, exec, next.value, layer[1..], ts);
      }
      if IsActive(spec, o, st.freshIn) {
        assert ActiveAmong(spec, layer, st.freshIn)[1..] == ActiveAmong(spec, layer[1..], st.freshIn);
      } else {
        assert ActiveAmong(spec, layer, st.freshIn) == ActiveAmong(spec, layer[1..], st.freshIn);
      }
    }
  }

  lemma {:induction false} EvalStreamsConcat(spec: Spec, exec: Executor, st: State, a: seq<nat>, b: seq<nat>, ts: Time)
    requires Shaped(spec, st)
    ensures EvalStreams(spec, exec, st, a + b, ts) ==
            (var mid := EvalStreams(spec, exec, st, a, ts);
             if mid.Panic? then Panic else EvalStreams(spec, exec, mid.value, b, ts))
    decreases |a|
  {
    if a == [] {
      assert a + b == b;
    } else {
      assert (a + b)[0] == a[0] && (a + b)[1..] == a[1..] + b;
      var next := EvalStream(spec, exec, st, a[0], ts);
      if next.Ok? {
        EvalStreamsConcat(spec, exec, next.value, a[1..], b, ts);
      }
    }
  }

  lemma {:induction false} ActiveAmongConcat(spec: Spec, a: seq<nat>, b: seq<nat>, ins: set<nat>)
    ensures ActiveAmong(spec, a + b, ins) == ActiveAmong(spec, a, ins) + ActiveAmong(spec, b, ins)
    decreases |a|
  {
    if a == [] {
      assert a + b == b;
    } else {
      assert (a + b)[0] == a[0] && (a + b)[1..] == a[1..] + b;
      ActiveAmongConcat(spec, a[1..], b, ins);
    }
  }

  lemma {:induction false} LayersEvaluateActive(spec: Spec, exec: Executor, st: State, layers: seq<seq<nat>>, ts: Time)
    requires Shaped(spec, st) && AllRunnable(spec, Flatten(layers))
    ensures EvalLayers(spec, exec, st, layers, ts)
            == EvalStreams(spec, exec, st, ActiveAmong(spec, Flatten(layers), st.freshIn), ts)
    decreases |layers|
  {
    if layers != [] {
      LayerEvaluatesActive(spec, exec, st, layers[0], ts);
      var rest := Flatten(layers[1..]);
      assert forall o | o in rest :: o in Flatten(layers);
      ActiveAmongConcat(spec, layers[0], rest, st.freshIn);
      EvalStreamsConcat(spec, exec, st, ActiveAmong(spec, layers[0], st.freshIn), ActiveAmong(spec, rest, st.freshIn),
                        ts);
      var next := EvalLayer(spec, exec, st, layers[0], ts);
      if next.Ok? {
        LayersEvaluateActive(spec, exec, next.value, layers[1..], ts);
      }
    }
  }

  lemma {:induction false} ActiveAmongElements(spec: Spec, order: seq<nat>, ins: set<nat>, o: nat)
    ensures o in ActiveAmong(spec, order, ins) <==> o in order && IsActive(spec, o, ins)
    decreases |order|
  {
    if order != [] {
      ActiveAmongElements(spec, order[1..], ins, o);
    }
  }

  /** Skipping inactive outputs keeps an order admissible. */
  lemma {:induction false} ActiveAmongTopological(spec: Spec, order: seq<nat>, ins: set<nat>)
    requires Topological(spec, order)
    ensures Topological(spec, ActiveAmong(spec, order, ins))
    decreases |order|
  {
    if order != [] {
      var rest, active := order[1..], ActiveAmong(spec, order[1..], ins);
      assert forall i | 0 <= i < |rest| :: rest[i] == order[i + 1];
      assert Topological(spec, rest) by {
        forall i, j | 0 <= i <= j < |rest| ensures rest[j] !in SameInstant(spec, rest[i]) {
          assert order[j + 1] !in SameInstant(spec, order[i + 1]);
        }
      }
      ActiveAmongTopological(spec, rest, ins);
      forall o | o in active ensures o in rest && o != order[0] && o !in SameInstant(spec, order[0]) {
        ActiveAmongElements(spec, rest, ins, o);
        var j :| 0 <= j < |rest| && rest[j] == o;
        assert order[j + 1] !in SameInstant(spec, order[0]);
      }
      if IsActive(spec, order[0], ins) {
        PrependTopological(spec, order[0], active);
      }
    }
  }

  lemma PrependTopological(spec: Spec, o: nat, order: seq<nat>)
    requires Topological(spec, order) && o < |spec.outputs| && o !in order && o !in SameInstant(spec, o)
    requires forall q | q in order :: q !in SameInstant(spec, o)
    ensures Topological(spec, [o] + order)
  {
    var all := [o] + order;
    forall i, j | 0 <= i <= j < |all| ensures all[j] !in SameInstant(spec, all[i]) {
      if i > 0 {
        assert order[j - 1] !in SameInstant(spec, order[i - 1]);
      }
    }
  }

  // ---------- inputs ----------

  function PresentUpTo(vals: seq<Value>, n: nat): map<nat, Value>
    requires n <= |vals|
  {
    map i: nat | 0 <= i < n && !vals[i].None? :: vals[i]
  }

  /** The state after accepting the inputs `ins`. */
  ghost predicate Accepted(spec: Spec, st: State, ins: map<nat, Value>, ts: Time, r: State) {
    && Shaped(spec, st) && Shaped(spec, r)
    && (forall i | 0 <= i < |spec.inputs| ::
          r.inputs[i] == if i in ins then Pushed(st.inputs[i], spec.inputs[i], ins[i]) else st.inputs[i])
    && (forall w | 0 <= w < |spec.windows| ::
          r.logs[w] == st.logs[w] + InputAccept(Row(ts, ins, map[]), Source(spec, w)))
    && r.freshIn == ins.Keys
    && r == st.(inputs := r.inputs, logs := r.logs, freshIn := r.freshIn)
  }

  lemma {:induction false} AcceptInputsAccepts(spec: Spec, st: State, vals: seq<Value>, n: nat, ts: Time)
    requires Shaped(spec, st) && st.freshIn == {} && n <= |vals|
    ensures AcceptsUpTo(spec, st, vals, n, ts, AcceptInputs(spec, st, vals, n, ts))
    decreases n
  {
    if n == 0 {
      AcceptsNothing(spec, st, vals, ts);
    } else {
      AcceptInputsAccepts(spec, st, vals, n - 1, ts);
      AcceptsNext(spec, st, vals, n, ts, AcceptInputs(spec, st, vals, n - 1, ts), AcceptInputs(spec, st, vals, n, ts));
    }
  }

  lemma AcceptsNothing(spec: Spec, st: State, vals: seq<Value>, ts: Time)
    requires Shaped(spec, st) && st.freshIn == {}
    ensures AcceptsUpTo(spec, st, vals, 0, ts, Ok(st))
  {
    assert PresentUpTo(vals, 0) == map[];
  }

  lemma AcceptsNext(spec: Spec, st: State, vals: seq<Value>, n: nat, ts: Time, before: Outcome<State>,
                    after: Outcome<State>)
    requires 0 < n <= |vals| && AcceptsUpTo(spec, st, vals, n - 1, ts, before)
             && (before.Ok? ==> Shaped(spec, before.value))
    requires after == if before.Panic? then Panic
                      else if vals[n - 1].None? then before
                      else if n - 1 >= |spec.inputs| then Panic
                      else Ok(AcceptInput(spec, before.value, n - 1, vals[n - 1], ts))
    ensures AcceptsUpTo(spec, st, vals, n, ts, after)
  {
    PresentNext(vals, n, |spec.inputs|);
    if !vals[n - 1].None? {
      AcceptsValue(spec, st, vals, n, ts, before, after);
    }
  }

  lemma AcceptsValue(spec: Spec, st: State, vals: seq<Value>, n: nat, ts: Time, before: Outcome<State>,
                     after: Outcome<State>)
    requires 0 < n <= |vals| && !vals[n - 1].None? && AcceptsUpTo(spec, st, vals, n - 1, ts, before)
    requires before.Ok? ==> Shaped(spec, before.value)
    requires after == if before.Panic? || n - 1 >= |spec.inputs| then Panic
                      else Ok(AcceptInput(spec, before.value, n - 1, vals[n - 1], ts))
    ensures AcceptsUpTo(spec, st, vals, n, ts, after)
  {
    PresentNext(vals, n, |spec.inputs|);
    if after.Ok? {
      NextAccepted(spec, st, PresentUpTo(vals, n - 1), PresentUpTo(vals, n), ts, before.value, n - 1, vals[n - 1]);
    }
  }

  lemma NextAccepted(spec: Spec, st: State, ins: map<nat, Value>, next: map<nat, Value>, ts: Time, r: State, i: nat,
                     v: Value)
    requires Accepted(spec, st, ins, ts, r) && i < |spec.inputs| && i !in ins && next == ins[i := v]
    ensures Accepted(spec, st, next, ts, AcceptInput(spec, r, i, v, ts))
  {
    AcceptNext(spec, st, ins, ts, r, i, v);
  }

  /** Accepting succeeds if all present inputs are known, and then it has accepted exactly these. */
  ghost predicate AcceptsUpTo(spec: Spec, st: State, vals: seq<Value>, n: nat, ts: Time, r: Outcome<State>)
    requires n <= |vals|
  {
    && (r.Ok? <==> AllBelow(PresentUpTo(vals, n), |spec.inputs|))
    && (r.Ok? ==> Accepted(spec, st, PresentUpTo(vals, n), ts, r.value))
  }

  ghost predicate AllBelow(ins: map<nat, Value>, m: nat) {
    forall i | i in ins :: i < m
  }

  lemma PresentNext(vals: seq<Value>, n: nat, known: nat)
    requires 0 < n <= |vals|
    ensures PresentUpTo(vals, n) == if vals[n - 1].None? then PresentUpTo(vals, n - 1)
            else PresentUpTo(vals, n - 1)[n - 1 := vals[n - 1]]
    ensures n - 1 !in PresentUpTo(vals, n - 1)
    ensures AllBelow(PresentUpTo(vals, n), known) <==>
              AllBelow(PresentUpTo(vals, n - 1), known) && (vals[n - 1].None? || n - 1 < known)
  {
    var before, now := PresentUpTo(vals, n - 1), PresentUpTo(vals, n);
    assert forall i | i in before :: i in now;
    assert !vals[n - 1].None? ==> n - 1 in now;
  }

  lemma AcceptNext(spec: Spec, st: State, ins: map<nat, Value>, ts: Time, r: State, i: nat, v: Value)
    requires Accepted(spec, st, ins, ts, r) && i < |spec.inputs| && i !in ins
    ensures Accepted(spec, st, ins[i := v], ts, AcceptInput(spec, r, i, v, ts))
  {
  }

  // ---------- one step of the refinement ----------

  lemma HistorySnoc(t: Trace, row: Row, x: StreamRef)
    ensures History(t + [row], x) == History(t, x) + (if ValueIn(row, x).Just? then [ValueIn(row, x).value] else [])
    ensures TimedHistory(t + [row], x)
            == TimedHistory(t, x) + (if ValueIn(row, x).Just? then [Sample(ValueIn(row, x).value, row.ts)] else [])
  {
    assert (t + [row])[..|t|] == t;
  }

  lemma LatestSnoc(history: seq<Value>, v: Value)
    ensures Latest(history + [v]) == v
  {
  }

  /** The log of a window when the evaluation of a step starts. */
  function LogBefore(past: Trace, row: Row, src: Option<StreamRef>): seq<Operation> {
    Operations(past, src) + InputAccept(row, src) + [Update(row.ts)]
  }

  /** The observation a step starts from: past histories in the store, current inputs accepted. */
  ghost predicate Prepared(spec: Spec, a: State, past: Trace, row: Row) {
    && Shaped(spec, a) && a.freshOut == {} && a.freshIn == row.ins.Keys
    && (forall i | i in row.ins :: i < |spec.inputs|)
    && (forall i | 0 <= i < |spec.inputs| ::
          Represents(a.inputs[i], spec.inputs[i],
                     History(past, InRef(i)) + if i in row.ins then [row.ins[i]] else []))
    && (forall o: nat | Stored(spec, OutRef(o)) ::
        Represents(a.outputs[o], spec.outputs[o].bound, History(past, OutRef(o))))
    && (forall w | 0 <= w < |spec.windows| :: a.logs[w] == LogBefore(past, row, Source(spec, w)))
    && a.fired == Fired(spec, past)
    && a.last == Just(row.ts) && Ascending(past + [row])
  }

  lemma PreparedBounded(spec: Spec, a: State, past: Trace, row: Row)
    requires Prepared(spec, a, past, row)
    ensures AllWithinBounds(spec, a)
  {
    forall x | Stored(spec, x) ensures WithinBound(BufferOf(a, x), BoundOf(spec, x)) {
      match x
      case InRef(i) =>
        assert Represents(a.inputs[i], spec.inputs[i],
                          History(past, x) + if i in row.ins then [row.ins[i]] else []);
      case OutRef(o) => assert Represents(a.outputs[o], spec.outputs[o].bound, History(past, x));
    }
  }

  lemma NowAgrees(spec: Spec, a: State, past: Trace, row: Row, o: nat, x: StreamRef)
    requires Prepared(spec, a, past, row) && Served(spec, Now(x))
    ensures AgreeOn(Now(x), StepCtx(spec, a, row.outs, o, row.ts), DeclarativeCtx(spec, past, row, o))
  {
    HistorySnoc(past, row, x);
    match x
    case InRef(i) =>
      assert Represents(a.inputs[i], spec.inputs[i], History(past + [row], x));
    case OutRef(q) =>
      if q in row.outs {
        LatestSnoc(History(past, x), row.outs[q]);
      } else {
        assert Represents(a.outputs[q], spec.outputs[q].bound, History(past + [row], x));
      }
  }

  lemma PastInputMeansKthRecent(spec: Spec, a: State, past: Trace, row: Row, i: nat, k: nat)
    requires Prepared(spec, a, past, row) && Served(spec, Past(InRef(i), k))
    ensures LookupPast(a.inputs[i], i in a.freshIn, k) == Ok(KthRecent(History(past, InRef(i)), k))
  {
    var before := History(past, InRef(i));
    if i in row.ins {
      var h := before + [row.ins[i]];
      assert Represents(a.inputs[i], spec.inputs[i], h);
      PastLookupMeaning(a.inputs[i], spec.inputs[i], h, k);
      assert h[..|h| - 1] == before;
    } else {
      assert before + [] == before;
      assert Represents(a.inputs[i], spec.inputs[i], before);
      PastLookupMeaning(a.inputs[i], spec.inputs[i], before, k);
    }
  }

  lemma PastMeansKthRecent(spec: Spec, a: State, past: Trace, row: Row, x: StreamRef, k: nat)
    requires Prepared(spec, a, past, row) && Served(spec, Past(x, k))
    ensures LookupPast(BufferOf(a, x), x.InRef? && x.ix in a.freshIn, k) == Ok(KthRecent(History(past, x), k))
  {
    match x
    case InRef(i) => PastInputMeansKthRecent(spec, a, past, row, i, k);
    case OutRef(q) =>
      assert Represents(a.outputs[q], spec.outputs[q].bound, History(past, x));
      PastLookupMeaning(a.outputs[q], spec.outputs[q].bound, History(past, x), k);
  }

  lemma PastAgrees(spec: Spec, a: State, past: Trace, row: Row, o: nat, x: StreamRef, k: nat)
    requires Prepared(spec, a, past, row) && Served(spec, Past(x, k))
    ensures AgreeOn(Past(x, k), StepCtx(spec, a, row.outs, o, row.ts), DeclarativeCtx(spec, past, row, o))
  {
    PastMeansKthRecent(spec, a, past, row, x, k);
  }

  /** One more operation at the time of a step. */
  lemma Logged(log: seq<Operation>, op: Operation)
    requires InTime(0, log) && LastTime(0, log) <= TimeOf(op)
    ensures UpToDate(0, log + [op], TimeOf(op))
    ensures AcceptedIn(log + [op]) == AcceptedIn(log) + (if op.Accept? then [op.x] else [])
  {
    AcceptedSnoc(log, op);
    InTimeSnoc(0, log, op);
  }

  lemma SourceHistorySnoc(past: Trace, row: Row, src: Option<StreamRef>)
    ensures SourceHistory(past + [row], src)
            == SourceHistory(past, src) + AcceptedIn(InputAccept(row, src)) + AcceptedIn(OutputAccept(row, src))
  {
    if src.Just? {
      HistorySnoc(past, row, src.value);
      var input, output := InputAccept(row, src), OutputAccept(row, src);
      assert input != [] ==> input[..0] == [] && AcceptedIn(input) == [] + [input[0].x];
      assert output != [] ==> output[..0] == [] && AcceptedIn(output) == [] + [output[0].x];
    }
  }

  /** At most one more value at the time of a step. */
  lemma MaybeLogged(log: seq<Operation>, ops: seq<Operation>, ts: Time)
    requires InTime(0, log) && LastTime(0, log) <= ts
    requires |ops| <= 1 && forall i | 0 <= i < |ops| :: TimeOf(ops[i]) == ts
    ensures InTime(0, log + ops) && LastTime(0, log + ops) <= ts
    ensures LastTime(0, log) == ts ==> LastTime(0, log + ops) == ts
    ensures AcceptedIn(log + ops) == AcceptedIn(log) + AcceptedIn(ops)
  {
    if ops == [] {
      assert log + ops == log && AcceptedIn(log) + [] == AcceptedIn(log);
    } else {
      Logged(log, ops[0]);
      OneOperation(ops);
    }
  }

  lemma OneOperation(ops: seq<Operation>)
    requires |ops| == 1
    ensures ops == [ops[0]] && AcceptedIn(ops) == if ops[0].Accept? then [ops[0].x] else []
  {
    assert ops[..0] == [];
  }

  /** When the evaluation of a step starts, a window is up to date and has accepted its current input. */
  lemma {:induction false} LogBeforeMeaning(past: Trace, row: Row, src: Option<StreamRef>)
    requires Ascending(past + [row])
    ensures UpToDate(0, LogBefore(past, row, src), row.ts)
    ensures AcceptedIn(LogBefore(past, row, src)) == SourceHistory(past, src) + AcceptedIn(InputAccept(row, src))
    decreases |past|, 2
  {
    assert (past + [row])[..|past|] == past;
    OperationsMeaning(past, src);
    assert past != [] ==> (past + [row])[|past| - 1].ts <= (past + [row])[|past|].ts;
    MaybeLogged(Operations(past, src), InputAccept(row, src), row.ts);
    Logged(Operations(past, src) + InputAccept(row, src), Update(row.ts));
  }

  /** A step adds the operations before its evaluation, and the current value of an output. */
  lemma OperationsSnoc(past: Trace, row: Row, src: Option<StreamRef>)
    ensures Operations(past + [row], src) == LogBefore(past, row, src) + OutputAccept(row, src)
  {
    assert (past + [row])[..|past|] == past;
  }

  /**
   What happens to a window over a run is in time order from the start, and it accepts exactly
   the values of the stream that informs it.
   */
  lemma {:induction false} OperationsMeaning(t: Trace, src: Option<StreamRef>)
    requires Ascending(t)
    ensures AcceptedIn(Operations(t, src)) == SourceHistory(t, src)
    ensures if t == [] then Operations(t, src) == [] else UpToDate(0, Operations(t, src), t[|t| - 1].ts)
    decreases |t|, 1
  {
    if t != [] {
      var n := |t| - 1;
      var past, row := t[..n], t[n];
      assert t == past + [row];
      LogThenOutput(past, row, src);
    }
  }

  lemma {:induction false} LogThenOutput(past: Trace, row: Row, src: Option<StreamRef>)
    requires Ascending(past + [row])
    ensures AcceptedIn(Operations(past + [row], src)) == SourceHistory(past + [row], src)
    ensures UpToDate(0, Operations(past + [row], src), row.ts)
    decreases |past| + 1, 0
  {
    LogBeforeMeaning(past, row, src);
    OperationsSnoc(past, row, src);
    SourceHistorySnoc(past, row, src);
    MaybeLogged(LogBefore(past, row, src), OutputAccept(row, src), row.ts);
  }

  /** The values of a stream come in the order of their times. */
  lemma {:induction false} TimedHistoryOrdered(t: Trace, x: StreamRef)
    requires Ascending(t)
    ensures var h := TimedHistory(t, x);
            && (forall i, j | 0 <= i <= j < |h| :: h[i].ts <= h[j].ts)
            && (forall i | 0 <= i < |h| :: t != [] && h[i].ts <= t[|t| - 1].ts)
  {
    if t != [] {
      var n := |t| - 1;
      TimedHistoryOrdered(t[..n], x);
      assert forall i | 0 <= i < |TimedHistory(t[..n], x)| :: TimedHistory(t[..n], x)[i].ts <= t[n - 1].ts <= t[n].ts;
    }
  }

  /** When an output reads a window, the window is up to date and has accepted what the equations say. */
  lemma LogIsHistory(spec: Spec, a: State, past: Trace, row: Row, o: nat, w: nat)
    requires Prepared(spec, a, past, row) && w < |spec.windows|
    ensures var src := Source(spec, w);
            var log := LogSeenBy(spec, a, row.outs, o, row.ts)[w];
            && UpToDate(0, log, row.ts)
            && AcceptedIn(log) == SourceHistory(if src == Just(OutRef(o)) then past else past + [row], src)
  {
    var src := Source(spec, w);
    LogBeforeMeaning(past, row, src);
    SourceHistorySnoc(past, row, src);
    if src == Just(OutRef(o)) {
      assert SourceHistory(past, src) + [] == SourceHistory(past, src);
    } else {
      MaybeLogged(LogBefore(past, row, src), OutputAccept(row, src), row.ts);
      assert LogSeenBy(spec, a, row.outs, o, row.ts)[w] == LogBefore(past, row, src) + OutputAccept(row, src);
    }
  }

  /** What a deque reports is the aggregate the equations speak of. */
  lemma WindowAgrees(spec: Spec, a: State, past: Trace, row: Row, o: nat, w: nat)
    requires Prepared(spec, a, past, row) && w < |spec.windows| && Faithful(spec.windows[w])
    ensures AgreeOn(Window(w), StepCtx(spec, a, row.outs, o, row.ts), DeclarativeCtx(spec, past, row, o))
  {
    LogIsHistory(spec, a, past, row, o, w);
    var log := LogSeenBy(spec, a, row.outs, o, row.ts)[w];
    assert spec.windows[w].report(log, row.ts) == spec.windows[w].value(AcceptedIn(log), row.ts);
  }

  lemma ObservationsAgree(spec: Spec, a: State, past: Trace, row: Row, o: nat)
    requires WellFormed(spec) && Prepared(spec, a, past, row) && o < |spec.outputs|
    ensures Agree(Reads(spec.outputs[o].expr), StepCtx(spec, a, row.outs, o, row.ts),
                  DeclarativeCtx(spec, past, row, o))
  {
    forall r | r in Reads(spec.outputs[o].expr)
      ensures AgreeOn(r, StepCtx(spec, a, row.outs, o, row.ts), DeclarativeCtx(spec, past, row, o))
    {
      assert Served(spec, r);
      match r
      case Now(x) => NowAgrees(spec, a, past, row, o, x);
      case Past(x, k) => PastAgrees(spec, a, past, row, o, x, k);
      case Window(w) => WindowAgrees(spec, a, past, row, o, w);
    }
  }

  /** The equations over histories are the equations over the prepared store. */
  lemma EquationsCoincide(spec: Spec, p: Prims, a: State, past: Trace, row: Row)
    requires WellFormed(spec) && Prepared(spec, a, past, row)
    ensures Solves(spec, Interpreted(spec, p), a, row.outs, row.ts) <==>
            forall o | o in row.outs ::
              o < |spec.outputs| && EvalExpr(p, spec.outputs[o].expr, DeclarativeCtx(spec, past, row, o))
                  == Ok(row.outs[o])
  {
    forall o | o in row.outs && o < |spec.outputs|
      ensures Interpreted(spec, p)(o, StepCtx(spec, a, row.outs, o, row.ts))
              == EvalExpr(p, spec.outputs[o].expr, DeclarativeCtx(spec, past, row, o))
    {
      ObservationsAgree(spec, a, past, row, o);
      EvalDependsOnReads(p, spec.outputs[o].expr, StepCtx(spec, a, row.outs, o, row.ts),
                         DeclarativeCtx(spec, past, row, o));
    }
  }

  /** Committing the row extends every history by the row. */
  lemma CommitHolds(spec: Spec, a: State, past: Trace, row: Row)
    requires WellFormed(spec) && Prepared(spec, a, past, row)
    requires forall o | o in row.outs :: o < |spec.outputs|
    ensures Holding(spec, Commit(spec, a, row.outs, row.outs.Keys, row.ts), past + [row])
  {
    var r := Commit(spec, a, row.outs, row.outs.Keys, row.ts);
    var t := past + [row];
    assert t[..|t| - 1] == past;
    forall x | Stored(spec, x) ensures Represents(BufferOf(r, x), BoundOf(spec, x), History(t, x)) {
      HistorySnoc(past, row, x);
      match x
      case InRef(i) => assert Represents(a.inputs[i], spec.inputs[i], History(t, x));
      case OutRef(o) =>
        assert Represents(a.outputs[o], spec.outputs[o].bound, History(past, x));
        if o in row.outs {
          assert HasRoom(BoundOf(spec, x), 1);
          PushRepresents(a.outputs[o], spec.outputs[o].bound, History(past, x), row.outs[o]);
        }
    }
    forall w | 0 <= w < |spec.windows| ensures r.logs[w] == Operations(t, Source(spec, w)) {
      OperationsSnoc(past, row, Source(spec, w));
    }
    assert r.fired == Fired(spec, t);
  }

  lemma SameInputAccept(row: Row, src: Option<StreamRef>)
    ensures InputAccept(Row(row.ts, row.ins, map[]), src) == InputAccept(row, src)
  {
  }

  lemma PrepareEvent(spec: Spec, st: State, past: Trace, vals: seq<Value>, row: Row, a: State)
    requires WellFormed(spec) && Holding(spec, st, past) && InOrder(st.last, row.ts)
    requires row.ins == Present(vals) && forall i | i in row.ins :: i < |spec.inputs|
    requires Accepted(spec, ClearFreshness(st).(last := Just(row.ts)), row.ins, row.ts, a)
    ensures Prepared(spec, PrepareEvaluation(a, row.ts), past, row)
  {
    AscendingSnoc(past, row);
    forall w | 0 <= w < |spec.windows|
      ensures PrepareEvaluation(a, row.ts).logs[w] == LogBefore(past, row, Source(spec, w))
    {
      SameInputAccept(row, Source(spec, w));
    }
    forall i | 0 <= i < |spec.inputs|
      ensures Represents(a.inputs[i], spec.inputs[i],
                         History(past, InRef(i)) + if i in row.ins then [row.ins[i]] else [])
    {
      assert Stored(spec, InRef(i));
      assert Represents(BufferOf(st, InRef(i)), spec.inputs[i], History(past, InRef(i)));
      if i in row.ins {
        assert HasRoom(BoundOf(spec, InRef(i)), 1);
        PushRepresents(st.inputs[i], spec.inputs[i], History(past, InRef(i)), row.ins[i]);
      } else {
        assert History(past, InRef(i)) + [] == History(past, InRef(i));
      }
    }
    forall o: nat | Stored(spec, OutRef(o))
      ensures Represents(a.outputs[o], spec.outputs[o].bound, History(past, OutRef(o)))
    {
      assert Represents(BufferOf(st, OutRef(o)), BoundOf(spec, OutRef(o)), History(past, OutRef(o)));
    }
  }

  lemma PrepareDeadline(spec: Spec, st: State, past: Trace, row: Row)
    requires Holding(spec, st, past) && row.ins == map[] && InOrder(st.last, row.ts)
    ensures Prepared(spec, PrepareEvaluation(ClearFreshness(st).(last := Just(row.ts)), row.ts), past, row)
  {
    AscendingSnoc(past, row);
    forall i | 0 <= i < |spec.inputs|
      ensures Represents(st.inputs[i], spec.inputs[i], History(past, InRef(i)) + [])
    {
      assert Represents(BufferOf(st, InRef(i)), BoundOf(spec, InRef(i)), History(past, InRef(i)));
      assert History(past, InRef(i)) + [] == History(past, InRef(i));
    }
    forall o: nat | Stored(spec, OutRef(o))
      ensures Represents(st.outputs[o], spec.outputs[o].bound, History(past, OutRef(o)))
    {
      assert Represents(BufferOf(st, OutRef(o)), BoundOf(spec, OutRef(o)), History(past, OutRef(o)));
    }
  }

  ghost function StepOrder(spec: Spec, step: Step): seq<nat> {
    match step
    case Event(vals, _) => ActiveAmong(spec, Flatten(spec.layers), Present(vals).Keys)
    case Deadline(due, _) => due
  }

  /** The prepared state of a step, if its inputs can be accepted. */
  function PreparedState(spec: Spec, st: State, step: Step): (r: Outcome<State>)
    requires Shaped(spec, st)
    ensures r.Ok? ==> Shaped(spec, r.value)
  {
    var cleared := ClearFreshness(st).(last := Just(step.ts));
    match step
    case Event(vals, ts) =>
      var accepted :- AcceptInputs(spec, cleared, vals, |vals|, ts);
      Ok(PrepareEvaluation(accepted, ts))
    case Deadline(_, ts) => Ok(PrepareEvaluation(cleared, ts))
  }

  /** A step prepares the store, and then evaluates an admissible order of the active outputs. */
  lemma StepIsOrdered(spec: Spec, p: Prims, st: State, past: Trace, step: Step)
    requires WellFormed(spec) && WellOrdered(spec, [step]) && Holding(spec, st, past)
    ensures Topological(spec, StepOrder(spec, step))
    ensures PreparedState(spec, st, step).Panic? ==> RunStep(spec, Interpreted(spec, p), st, step).Panic?
    ensures PreparedState(spec, st, step).Ok? && InOrder(st.last, step.ts) ==>
              var evaluated := EvalStreams(spec, Interpreted(spec, p), PreparedState(spec, st, step).value,
                                           StepOrder(spec, step), step.ts);
              RunStep(spec, Interpreted(spec, p), st, step) ==
              if evaluated.Panic? then Panic
              else if step.Event? then evaluated
              else Ok(ClearFreshness(evaluated.value))
  {
    match step
    case Event(vals, ts) =>
      var cleared := ClearFreshness(st).(last := Just(ts));
      ActiveAmongTopological(spec, Flatten(spec.layers), Present(vals).Keys);
      AcceptInputsAccepts(spec, cleared, vals, |vals|, ts);
      assert PresentUpTo(vals, |vals|) == Present(vals);
      var accepted := AcceptInputs(spec, cleared, vals, |vals|, ts);
      if accepted.Ok? {
        LayersEvaluateActive(spec, Interpreted(spec, p), PrepareEvaluation(accepted.value, ts), spec.layers, ts);
      }
    case Deadline(due, ts) =>
      assert [step][0].Deadline?;
  }

  lemma PreparedStateIsPrepared(spec: Spec, st: State, past: Trace, step: Step, row: Row)
    requires WellFormed(spec) && Holding(spec, st, past)
    requires row.ts == step.ts && row.ins == if step.Event? then Present(step.vals) else map[]
    ensures PreparedState(spec, st, step).Ok? <==> forall i | i in row.ins :: i < |spec.inputs|
    ensures PreparedState(spec, st, step).Ok? && InOrder(st.last, row.ts) ==>
              Prepared(spec, PreparedState(spec, st, step).value, past, row)
  {
    match step
    case Event(vals, ts) =>
      var cleared := ClearFreshness(st).(last := Just(ts));
      AcceptInputsAccepts(spec, cleared, vals, |vals|, ts);
      assert PresentUpTo(vals, |vals|) == Present(vals);
      var accepted := AcceptInputs(spec, cleared, vals, |vals|, ts);
      if accepted.Ok? && InOrder(st.last, row.ts) {
        PrepareEvent(spec, st, past, vals, row, accepted.value);
      }
    case Deadline(due, ts) =>
      if InOrder(st.last, row.ts) {
        PrepareDeadline(spec, st, past, row);
      }
  }

  lemma StepOrderElements(spec: Spec, step: Step, row: Row)
    requires row.ins == if step.Event? then Present(step.vals) else map[]
    requires forall i | i in row.ins :: i < |spec.inputs|
    ensures HasActiveOutputs(spec, step, row) <==> row.outs.Keys == Elements(StepOrder(spec, step))
  {
    if step.Event? {
      forall o: nat ensures o in Elements(StepOrder(spec, step)) <==>
            o in Flatten(spec.layers) && IsActive(spec, o, row.ins.Keys) {
        ActiveAmongElements(spec, Flatten(spec.layers), row.ins.Keys, o);
      }
    }
  }

  lemma ClearKeepsHolding(spec: Spec, st: State, t: Trace)
    requires Holding(spec, st, t)
    ensures Holding(spec, ClearFreshness(st), t)
  {
    forall x | Stored(spec, x) ensures Represents(BufferOf(ClearFreshness(st), x), BoundOf(spec, x), History(t, x)) {
      assert BufferOf(ClearFreshness(st), x) == BufferOf(st, x);
    }
  }

  /** A row that satisfies the equations is what the machine computes. */
  lemma StepRefines(spec: Spec, p: Prims, st: State, past: Trace, step: Step, row: Row)
    requires WellFormed(spec) && WellOrdered(spec, [step]) && Holding(spec, st, past)
    requires SatisfiesEquations(spec, p, past, step, row)
    ensures RunStep(spec, Interpreted(spec, p), st, step).Ok?
    ensures Holding(spec, RunStep(spec, Interpreted(spec, p), st, step).value, past + [row])
  {
    StepIsOrdered(spec, p, st, past, step);
    PreparedStateIsPrepared(spec, st, past, step, row);
    var a := PreparedState(spec, st, step).value;
    PreparedBounded(spec, a, past, row);
    EquationsCoincide(spec, p, a, past, row);
    StepOrderElements(spec, step, row);
    SolutionReached(spec, p, a, row.outs, StepOrder(spec, step), step.ts);
    CommitHolds(spec, a, past, row);
    ClearKeepsHolding(spec, Commit(spec, a, row.outs, row.outs.Keys, row.ts), past + [row]);
  }

  /** Conversely, a step the machine gets through satisfies the equations. */
  lemma StepSatisfies(spec: Spec, p: Prims, st: State, past: Trace, step: Step) returns (row: Row)
    requires WellFormed(spec) && WellOrdered(spec, [step]) && Holding(spec, st, past)
    requires RunStep(spec, Interpreted(spec, p), st, step).Ok?
    ensures SatisfiesEquations(spec, p, past, step, row)
  {
    StepIsOrdered(spec, p, st, past, step);
    var ins := if step.Event? then Present(step.vals) else map[];
    PreparedStateIsPrepared(spec, st, past, step, Row(step.ts, ins, map[]));
    var a := PreparedState(spec, st, step).value;
    PreparedBounded(spec, a, past, Row(step.ts, ins, map[]));
    var outs := SolutionFound(spec, p, a, StepOrder(spec, step), step.ts);
    row := Row(step.ts, ins, outs);
    PreparedStateIsPrepared(spec, st, past, step, row);
    EquationsCoincide(spec, p, a, past, row);
    StepOrderElements(spec, step, row);
  }

  // ---------- whole runs ----------

  lemma OrderedPrefix(spec: Spec, run: seq<Step>)
    requires WellOrdered(spec, run) && run != []
    ensures WellOrdered(spec, run[..|run| - 1]) && WellOrdered(spec, [run[|run| - 1]])
  {
    var last := [run[|run| - 1]];
    forall n | 0 <= n < |last| && last[n].Deadline? ensures Topological(spec, last[n].due) {
      assert run[|run| - 1].Deadline?;
    }
  }

  lemma InitiallyHolding(spec: Spec)
    ensures Holding(spec, InitialState(spec), [])
  {
    forall x | Stored(spec, x) ensures Represents(BufferOf(InitialState(spec), x), BoundOf(spec, x), History([], x)) {
      assert BufferOf(InitialState(spec), x) == [];
    }
  }

  /** One more step of a run. */
  lemma NextStepRefines(spec: Spec, p: Prims, run: seq<Step>, t: Trace, n: nat)
    requires WellFormed(spec) && |run| == |t| == n + 1 && WellOrdered(spec, [run[n]])
    requires RunAll(spec, Interpreted(spec, p), run[..n]).Ok?
    requires Holding(spec, RunAll(spec, Interpreted(spec, p), run[..n]).value, t[..n])
    requires SatisfiesEquations(spec, p, t[..n], run[n], t[n])
    ensures RunAll(spec, Interpreted(spec, p), run).Ok?
    ensures Holding(spec, RunAll(spec, Interpreted(spec, p), run).value, t)
  {
    StepRefines(spec, p, RunAll(spec, Interpreted(spec, p), run[..n]).value, t[..n], run[n], t[n]);
    assert t[..n] + [t[n]] == t;
  }

  /**
   Refinement: for every run, a trace that satisfies the declarative equations over unbounded
   histories is what the evaluator computes: it does not panic, and it ends with the newest
   values of every stream in its buffers.
   */
  lemma {:induction false} EvaluatorRefines(spec: Spec, p: Prims, run: seq<Step>, t: Trace)
    requires WellFormed(spec) && WellOrdered(spec, run) && IsModel(spec, p, run, t)
    ensures RunAll(spec, Interpreted(spec, p), run).Ok?
    ensures Holding(spec, RunAll(spec, Interpreted(spec, p), run).value, t)
    decreases |run|
  {
    if run == [] {
      InitiallyHolding(spec);
    } else {
      var n := |run| - 1;
      OrderedPrefix(spec, run);
      EvaluatorRefines(spec, p, run[..n], t[..n]);
      NextStepRefines(spec, p, run, t, n);
    }
  }

  /** Every run without a panic has a model. */
  lemma {:induction false} RunHasModel(spec: Spec, p: Prims, run: seq<Step>) returns (t: Trace)
    requires WellFormed(spec) && WellOrdered(spec, run)
    requires RunAll(spec, Interpreted(spec, p), run).Ok?
    ensures IsModel(spec, p, run, t)
    decreases |run|
  {
    if run == [] {
      t := [];
    } else {
      var n := |run| - 1;
      OrderedPrefix(spec, run);
      var before := RunHasModel(spec, p, run[..n]);
      EvaluatorRefines(spec, p, run[..n], before);
      var row := StepSatisfies(spec, p, RunAll(spec, Interpreted(spec, p), run[..n]).value, before, run[n]);
      t := before + [row];
      assert t[..n] == before;
    }
  }

  lemma NextRowUnique(spec: Spec, p: Prims, run: seq<Step>, past: Trace, row: Row, row': Row)
    requires WellFormed(spec) && WellOrdered(spec, run) && run != []
    requires IsModel(spec, p, run[..|run| - 1], past)
    requires SatisfiesEquations(spec, p, past, run[|run| - 1], row)
             && SatisfiesEquations(spec, p, past, run[|run| - 1], row')
    ensures row == row'
  {
    var n := |run| - 1;
    OrderedPrefix(spec, run);
    EvaluatorRefines(spec, p, run[..n], past);
    RowUnique(spec, p, RunAll(spec, Interpreted(spec, p), run[..n]).value, past, run[n], row, row');
  }

  /** The declarative equations have at most one solution. */
  lemma {:induction false} ModelUnique(spec: Spec, p: Prims, run: seq<Step>, t: Trace, t': Trace)
    requires WellFormed(spec) && WellOrdered(spec, run)
    requires IsModel(spec, p, run, t) && IsModel(spec, p, run, t')
    ensures t == t'
    decreases |run|
  {
    if run != [] {
      var n := |run| - 1;
      OrderedPrefix(spec, run);
      ModelUnique(spec, p, run[..n], t[..n], t'[..n]);
      NextRowUnique(spec, p, run, t[..n], t[n], t'[n]);
      assert t == t[..n] + [t[n]] && t' == t'[..n] + [t'[n]];
    }
  }

  lemma RowUnique(spec: Spec, p: Prims, st: State, past: Trace, step: Step, row: Row, row': Row)
    requires WellFormed(spec) && WellOrdered(spec, [step]) && Holding(spec, st, past)
    requires SatisfiesEquations(spec, p, past, step, row) && SatisfiesEquations(spec, p, past, step, row')
    ensures row == row'
  {
    StepIsOrdered(spec, p, st, past, step);
    PreparedStateIsPrepared(spec, st, past, step, row);
    PreparedStateIsPrepared(spec, st, past, step, row');
    var a := PreparedState(spec, st, step).value;
    EquationsCoincide(spec, p, a, past, row);
    EquationsCoincide(spec, p, a, past, row');
    StepOrderElements(spec, step, row);
    StepOrderElements(spec, step, row');
    SolutionUnique(spec, p, a, row.outs, row'.outs, StepOrder(spec, step), step.ts);
  }

  ghost predicate HasModel(spec: Spec, p: Prims, run: seq<Step>) {
    exists t :: IsModel(spec, p, run, t)
  }

  lemma {:induction false} ModelPrefix(spec: Spec, p: Prims, run: seq<Step>, t: Trace, n: nat)
    requires IsModel(spec, p, run, t) && n <= |run|
    ensures IsModel(spec, p, run[..n], t[..n])
    decreases |run|
  {
    if n == |run| {
      assert run[..n] == run && t[..n] == t;
    } else {
      ModelPrefix(spec, p, run[..|run| - 1], t[..|t| - 1], n);
      assert run[..|run| - 1][..n] == run[..n] && t[..|t| - 1][..n] == t[..n];
    }
  }

  lemma EmptyModel(spec: Spec, p: Prims, t: Trace)
    requires t == []
    ensures IsModel(spec, p, [], t)
  {
  }

  /** The last step of a model, and the steps before it. */
  lemma LastOfModel(spec: Spec, p: Prims, run: seq<Step>, t: Trace)
    requires IsModel(spec, p, run, t) && run != []
    ensures |t| == |run| && IsModel(spec, p, run[..|run| - 1], t[..|t| - 1])
    ensures SatisfiesEquations(spec, p, t[..|t| - 1], run[|run| - 1], t[|t| - 1])
  {
  }

  /** A model is a model of the steps before with a last step that satisfies its equations. */
  lemma ModelByLast(spec: Spec, p: Prims, run: seq<Step>, t: Trace)
    requires |t| == |run| > 0 && IsModel(spec, p, run[..|run| - 1], t[..|t| - 1])
    requires SatisfiesEquations(spec, p, t[..|t| - 1], run[|run| - 1], t[|t| - 1])
    ensures IsModel(spec, p, run, t)
  {
  }

  /** Every step of a model satisfies its equations. */
  lemma ModelAt(spec: Spec, p: Prims, run: seq<Step>, t: Trace, n: nat)
    requires IsModel(spec, p, run, t) && n < |run|
    ensures |t| == |run| && SatisfiesEquations(spec, p, t[..n], run[n], t[n])
  {
    ModelPrefix(spec, p, run, t, n + 1);
    assert t[..n + 1][..n] == t[..n] && run[..n + 1][..n] == run[..n];
  }

  // ---------- linked windows ----------

  /** Every window that an output reads is linked to its target. */
  ghost predicate ReadsLinked(spec: Spec) {
    forall o, a | 0 <= o < |spec.outputs| && a in Reads(spec.outputs[o].expr) && a.Window? :: a.w in spec.linked
  }

  /** What the specification says: every window is over the values of its target. */
  ghost function Intended(spec: Spec): Spec {
    spec.(linked := Indices(|spec.windows|))
  }

  ghost function Indices(n: nat): (r: set<nat>)
    ensures forall w: nat :: w in r <==> w < n
  {
    if n == 0 then {} else Indices(n - 1) + {n - 1}
  }

  lemma IntendedObserves(spec: Spec, past: Trace, row: Row, o: nat)
    requires ReadsLinked(spec) && o < |spec.outputs|
    ensures Agree(Reads(spec.outputs[o].expr), DeclarativeCtx(spec, past, row, o),
                  DeclarativeCtx(Intended(spec), past, row, o))
  {
    forall a | a in Reads(spec.outputs[o].expr)
      ensures AgreeOn(a, DeclarativeCtx(spec, past, row, o), DeclarativeCtx(Intended(spec), past, row, o))
    {
      if a.Window? && a.w < |spec.windows| {
        assert a.w in spec.linked;
        assert Source(Intended(spec), a.w) == Source(spec, a.w);
      }
    }
  }

  lemma IntendedEquations(spec: Spec, p: Prims, past: Trace, step: Step, row: Row)
    requires ReadsLinked(spec)
    ensures SatisfiesEquations(Intended(spec), p, past, step, row) <==> SatisfiesEquations(spec, p, past, step, row)
  {
    forall o: nat ensures IsActive(Intended(spec), o, row.ins.Keys) <==> IsActive(spec, o, row.ins.Keys) {
    }
    forall o | o in row.outs && o < |spec.outputs|
      ensures EvalExpr(p, spec.outputs[o].expr, DeclarativeCtx(Intended(spec), past, row, o))
              == EvalExpr(p, spec.outputs[o].expr, DeclarativeCtx(spec, past, row, o))
    {
      IntendedObserves(spec, past, row, o);
      EvalDependsOnReads(p, spec.outputs[o].expr, DeclarativeCtx(spec, past, row, o),
                         DeclarativeCtx(Intended(spec), past, row, o));
    }
  }

  /** If every window that is read is linked, the equations are the intended ones. */
  lemma {:induction false} LinkedIsIntended(spec: Spec, p: Prims, run: seq<Step>, t: Trace)
    requires ReadsLinked(spec)
    ensures IsModel(Intended(spec), p, run, t) <==> IsModel(spec, p, run, t)
    decreases |run|
  {
    if run != [] && |t| == |run| {
      LinkedIsIntended(spec, p, run[..|run| - 1], t[..|t| - 1]);
      IntendedEquations(spec, p, t[..|t| - 1], run[|run| - 1], t[|t| - 1]);
    }
  }

  /** The evaluator gets through a run exactly if the declarative equations have a solution. */
  lemma RunsIffModelled(spec: Spec, p: Prims, run: seq<Step>)
    requires WellFormed(spec) && WellOrdered(spec, run)
    ensures RunAll(spec, Interpreted(spec, p), run).Ok? <==> HasModel(spec, p, run)
  {
    if RunAll(spec, Interpreted(spec, p), run).Ok? {
      var t := RunHasModel(spec, p, run);
      assert HasModel(spec, p, run);
    } else if HasModel(spec, p, run) {
      var t :| IsModel(spec, p, run, t);
      EvaluatorRefines(spec, p, run, t);
      assert false;
    }
  }
}
