/** Well-typed specifications: what is stored in buffers and logged by windows always has its declared type. */
module TypedRuns {
  import opened Values
  import opened Expressions
  import opened Activations
  import opened Stores
  import opened WindowLogs
  import opened Evaluator

  ghost predicate TypedValues(vs: seq<Value>, t: Type) {
    forall v | v in vs :: Matches(v, t)
  }

  ghost predicate TypedSamples(xs: seq<Sample>, t: Type) {
    forall i | 0 <= i < |xs| :: Matches(xs[i].v, t)
  }

  ghost predicate TypedOutcome(r: Outcome<Value>, t: Type) {
    r.Ok? ==> Matches(r.value, t)
  }

  /** The type of what a stream passes on to windows; a trigger passes on its condition. */
  function ProducedType(spec: Spec, s: Signature, x: StreamRef): Type {
    if x.OutRef? && x.ix < |spec.outputs| && spec.outputs[x.ix].isTrigger then BoolT else s.stream(x)
  }

  /** A window that has accepted only values of the produced type reports values of type `t`. */
  ghost predicate TypedWindow(window: SlidingWindow, produced: Type, t: Type) {
    forall log, ts | UpToDate(0, log, ts) && TypedSamples(AcceptedIn(log), produced) ::
          TypedOutcome(window.report(log, ts), t)
  }

  /** On values of the produced type the window never panics. */
  ghost predicate TotalWindow(window: SlidingWindow, produced: Type) {
    forall log, ts | UpToDate(0, log, ts) && TypedSamples(AcceptedIn(log), produced) :: window.report(log, ts).Ok?
  }

  /** Every expression has the type of its stream, and every window fed with its target's type yields its own type. */
  ghost predicate TypedSpec(spec: Spec, s: Signature) {
    && (forall o | 0 <= o < |spec.outputs| :: TypeOf(s, spec.outputs[o].expr) == Ok(ProducedType(spec, s, OutRef(o))))
    && (forall w | 0 <= w < |spec.windows| ::
          TypedWindow(spec.windows[w], ProducedType(spec, s, spec.windows[w].target), s.window(w)))
  }

  ghost predicate TypedStep(step: Step, s: Signature) {
    step.Event? ==> forall i | 0 <= i < |step.vals| && !step.vals[i].None? :: Matches(step.vals[i], s.stream(InRef(i)))
  }

  ghost predicate TypedLogs(spec: Spec, s: Signature, logs: seq<seq<Operation>>) {
    && |logs| == |spec.windows|
    && forall w | 0 <= w < |logs| :: TypedSamples(AcceptedIn(logs[w]), ProducedType(spec, s, spec.windows[w].target))
  }

  ghost predicate LoggedBy(log: seq<Operation>, last: Option<Time>) {
    InTime(0, log) && LastTime(0, log) <= if last.Just? then last.value else 0
  }

  ghost predicate TypedState(spec: Spec, st: State, s: Signature) {
    && (forall i | 0 <= i < |st.inputs| :: TypedValues(st.inputs[i], s.stream(InRef(i))))
    && (forall o | 0 <= o < |st.outputs| :: TypedValues(st.outputs[o], s.stream(OutRef(o))))
    && (forall i | i in st.freshIn :: i < |st.inputs| && st.inputs[i] != [])
    && (forall o | o in st.freshOut :: o < |st.outputs| && st.outputs[o] != [])
    && TypedLogs(spec, s, st.logs)
    && (forall w | 0 <= w < |st.logs| :: LoggedBy(st.logs[w], st.last))
  }

  /** All windows are up to date for an evaluation at `ts`. */
  ghost predicate Evaluating(st: State, ts: Time) {
    st.last == Just(ts) && forall w | 0 <= w < |st.logs| :: UpToDate(0, st.logs[w], ts)
  }

  // ---------- lookups ----------

  lemma TypedLookup(vs: seq<Value>, t: Type, isFresh: bool, k: nat)
    requires TypedValues(vs, t)
    ensures TypedOutcome(LookupPast(vs, isFresh, k), OptionT(t))
  {
  }

  lemma MachineCtxTyped(spec: Spec, s: Signature, st: State, ts: Time)
    requires TypedSpec(spec, s) && TypedState(spec, st, s) && Shaped(spec, st) && Evaluating(st, ts)
    ensures TypedCtx(MachineCtx(spec, st, ts), s)
  {
    var c := MachineCtx(spec, st, ts);
    forall x ensures TypedValues(BufferOf(st, x), s.stream(x)) {
    }
    forall x, k | c.past(x, k).Ok? ensures Matches(c.past(x, k).value, OptionT(s.stream(x))) {
      TypedLookup(BufferOf(st, x), s.stream(x), IsFresh(st, x), k);
    }
    forall w: nat | c.window(w).Ok? ensures Matches(c.window(w).value, s.window(w)) {
      assert TypedOutcome(spec.windows[w].report(st.logs[w], ts), s.window(w));
    }
  }

  // ---------- one operation ----------

  lemma PushTyped(buffer: seq<Value>, bound: MemorizationBound, v: Value, t: Type)
    requires TypedValues(buffer, t) && Matches(v, t)
    ensures TypedValues(Pushed(buffer, bound, v), t) && Pushed(buffer, bound, v) != []
  {
  }

  lemma LogGrows(log: seq<Operation>, op: Operation, ts: Time, t: Type)
    requires LoggedBy(log, Just(ts)) && TypedSamples(AcceptedIn(log), t) && TimeOf(op) == ts
    requires op.Accept? ==> Matches(op.x.v, t)
    ensures UpToDate(0, log + [op], ts) && LoggedBy(log + [op], Just(ts)) && TypedSamples(AcceptedIn(log + [op]), t)
  {
    AcceptedSnoc(log, op);
    InTimeSnoc(0, log, op);
    if op.Accept? {
      TypedSamplesSnoc(AcceptedIn(log), op.x, t);
    } else {
      assert AcceptedIn(log) + [] == AcceptedIn(log);
    }
  }

  lemma TypedSamplesSnoc(xs: seq<Sample>, x: Sample, t: Type)
    requires TypedSamples(xs, t) && Matches(x.v, t)
    ensures TypedSamples(xs + [x], t)
  {
  }

  /** Windows over `x` accept a value of its type. */
  lemma FeedTyped(spec: Spec, s: Signature, st: State, x: StreamRef, v: Value, ts: Time)
    requires TypedState(spec, st, s) && Shaped(spec, st) && st.last == Just(ts) && Matches(v, ProducedType(spec, s, x))
    ensures TypedLogs(spec, s, Feed(spec, st.logs, x, v, ts))
    ensures forall w | 0 <= w < |st.logs| :: LoggedBy(Feed(spec, st.logs, x, v, ts)[w], Just(ts))
    ensures Evaluating(st, ts) ==> forall w | 0 <= w < |st.logs| :: UpToDate(0, Feed(spec, st.logs, x, v, ts)[w], ts)
  {
    var fed := Feed(spec, st.logs, x, v, ts);
    forall w | 0 <= w < |st.logs|
      ensures LoggedBy(fed[w], Just(ts)) && (Evaluating(st, ts) ==> UpToDate(0, fed[w], ts))
      ensures TypedSamples(AcceptedIn(fed[w]), ProducedType(spec, s, spec.windows[w].target))
    {
      assert LoggedBy(st.logs[w], Just(ts));
      if Source(spec, w) == Just(x) {
        LogGrows(st.logs[w], Accept(Sample(v, ts)), ts, ProducedType(spec, s, x));
      }
    }
  }

  /** Updating all windows makes the state ready for an evaluation. */
  lemma PrepareTyped(spec: Spec, s: Signature, st: State, ts: Time)
    requires TypedState(spec, st, s) && Shaped(spec, st) && st.last == Just(ts)
    ensures TypedState(spec, PrepareEvaluation(st, ts), s) && Evaluating(PrepareEvaluation(st, ts), ts)
  {
    var updated := UpdateAll(st.logs, ts);
    forall w | 0 <= w < |st.logs|
      ensures LoggedBy(updated[w], Just(ts)) && UpToDate(0, updated[w], ts)
      ensures TypedSamples(AcceptedIn(updated[w]), ProducedType(spec, s, spec.windows[w].target))
    {
      assert LoggedBy(st.logs[w], Just(ts));
      LogGrows(st.logs[w], Update(ts), ts, ProducedType(spec, s, spec.windows[w].target));
    }
  }

  lemma InputTyped(spec: Spec, s: Signature, st: State, i: nat, v: Value, ts: Time)
    requires TypedState(spec, st, s) && Shaped(spec, st) && st.last == Just(ts)
    requires i < |spec.inputs| && Matches(v, s.stream(InRef(i)))
    ensures TypedState(spec, AcceptInput(spec, st, i, v, ts), s)
  {
    PushTyped(st.inputs[i], spec.inputs[i], v, s.stream(InRef(i)));
    FeedTyped(spec, s, st, InRef(i), v, ts);
  }

  lemma StoreTyped(spec: Spec, s: Signature, st: State, o: nat, v: Value, ts: Time)
    requires TypedState(spec, st, s) && Shaped(spec, st) && Evaluating(st, ts)
    requires o < |spec.outputs| && Matches(v, ProducedType(spec, s, OutRef(o)))
    ensures TypedState(spec, StoreValue(spec, st, o, v, ts), s) && Evaluating(StoreValue(spec, st, o, v, ts), ts)
  {
    FeedTyped(spec, s, st, OutRef(o), v, ts);
    if !spec.outputs[o].isTrigger {
      PushTyped(st.outputs[o], spec.outputs[o].bound, v, s.stream(OutRef(o)));
    }
  }

  /** Evaluating one output stores a value of its type. */
  lemma StreamTyped(spec: Spec, p: Prims, s: Signature, st: State, o: nat, ts: Time)
    requires TypedPrims(p, s) && TypedSpec(spec, s) && TypedState(spec, st, s) && Shaped(spec, st) && Evaluating(st, ts)
    ensures var r := EvalStream(spec, Interpreted(spec, p), st, o, ts);
            r.Ok? ==> TypedState(spec, r.value, s) && Evaluating(r.value, ts)
  {
    if o < |spec.outputs| {
      MachineCtxTyped(spec, s, st, ts);
      var v := EvalExpr(p, spec.outputs[o].expr, MachineCtx(spec, st, ts));
      EvalMatchesType(p, s, spec.outputs[o].expr, MachineCtx(spec, st, ts));
      if v.Ok? {
        StoreTyped(spec, s, st, o, v.value, ts);
      }
    }
  }

  lemma {:induction false} AcceptedTyped(spec: Spec, s: Signature, st: State, vals: seq<Value>, n: nat, ts: Time)
    requires TypedState(spec, st, s) && Shaped(spec, st) && st.last == Just(ts) && n <= |vals|
    requires forall i | 0 <= i < |vals| && !vals[i].None? :: Matches(vals[i], s.stream(InRef(i)))
    ensures AcceptInputs(spec, st, vals, n, ts).Ok? ==> TypedState(spec, AcceptInputs(spec, st, vals, n, ts).value, s)
    decreases n
  {
    if n > 0 {
      AcceptedTyped(spec, s, st, vals, n - 1, ts);
      var before := AcceptInputs(spec, st, vals, n - 1, ts);
      if before.Ok? && !vals[n - 1].None? && n - 1 < |spec.inputs| {
        InputTyped(spec, s, before.value, n - 1, vals[n - 1], ts);
      }
    }
  }

  /** A step starts with no stream fresh, at its own time. */
  function Started(st: State, ts: Time): State {
    ClearFreshness(st).(last := Just(ts))
  }

  lemma StartedTyped(spec: Spec, s: Signature, st: State, ts: Time)
    requires TypedState(spec, st, s) && Shaped(spec, st) && InOrder(st.last, ts)
    ensures TypedState(spec, Started(st, ts), s) && Shaped(spec, Started(st, ts))
  {
    forall w | 0 <= w < |st.logs| ensures LoggedBy(st.logs[w], Just(ts)) {
      assert LoggedBy(st.logs[w], st.last);
    }
  }

  lemma InitiallyTyped(spec: Spec, s: Signature)
    ensures TypedState(spec, InitialState(spec), s)
  {
  }
}
