/**
 The outputs of one step, evaluated in any order that respects the same-instant accesses,
 are the unique solution of the step's equations; hence all such orders agree.
 */
module OneStep {
  import opened Sequences
  import opened Values
  import opened Expressions
  import opened Stores
  import opened WindowLogs
  import opened Evaluator

  /** The outputs whose current value an output reads: zero-offset accesses, and windows over other outputs. */
  function SameInstant(spec: Spec, o: nat): set<nat>
    requires o < |spec.outputs|
  {
    (set a | a in Reads(spec.outputs[o].expr) && a.Now? && a.x.OutRef? :: a.x.ix) +
    (set a | a in Reads(spec.outputs[o].expr) && a.Window? && a.w < |spec.windows| && spec.windows[a.w].target.OutRef?
             && spec.windows[a.w].target.ix != o :: spec.windows[a.w].target.ix)
  }

  /** No output comes before an output of the same step whose current value it reads. */
  ghost predicate Topological(spec: Spec, order: seq<nat>) {
    && NoDuplicates(order)
    && (forall i | 0 <= i < |order| :: order[i] < |spec.outputs|)
    && forall i, j | 0 <= i <= j < |order| :: order[j] !in SameInstant(spec, order[i])
  }

  /** The store can serve an access: the target is stored, and its buffer is large enough. */
  predicate Served(spec: Spec, a: Access) {
    match a
    case Now(x) => Stored(spec, x) && HasRoom(BoundOf(spec, x), 1)
    case Past(x, k) => Stored(spec, x) && 1 <= k < 0x8000 && HasRoom(BoundOf(spec, x), k + 1)
    case Window(w) => w < |spec.windows|
  }

  /**
   What lowering guarantees: served accesses, room for a value in every buffer that is written, and
   faithful windows.
   */
  ghost predicate WellFormed(spec: Spec) {
    && (forall o, a | 0 <= o < |spec.outputs| && a in Reads(spec.outputs[o].expr) :: Served(spec, a))
    && (forall x | Stored(spec, x) :: HasRoom(BoundOf(spec, x), 1))
    && (forall w | 0 <= w < |spec.windows| :: Stored(spec, spec.windows[w].target) && Faithful(spec.windows[w]))
  }

  ghost predicate AllWithinBounds(spec: Spec, st: State) {
    && Shaped(spec, st)
    && forall x | Stored(spec, x) :: WithinBound(BufferOf(st, x), BoundOf(spec, x))
  }

  // ---------- the equations of one step ----------

  /**
   The log of each window when read by `o`: the log when the evaluation starts, and the new
   value of the output that informs it unless that is `o`.
   */
  function LogSeenBy(spec: Spec, st: State, row: map<nat, Value>, o: nat, ts: Time): seq<seq<Operation>>
    requires Shaped(spec, st)
  {
    seq(|st.logs|, w requires 0 <= w < |st.logs| =>
      var src := Source(spec, w);
      if IsOutput(src) && src.value.ix != o && src.value.ix in row
      then st.logs[w] + [Accept(Sample(row[src.value.ix], ts))] else st.logs[w])
  }

  predicate IsOutput(src: Option<StreamRef>) {
    src.Just? && src.value.OutRef?
  }

  /** What output `o` observes if the step computes `row`: current values from `row`, the past from the stores. */
  function StepCtx(spec: Spec, st: State, row: map<nat, Value>, o: nat, ts: Time): Ctx
    requires Shaped(spec, st)
  {
    Ctx((x: StreamRef) => if x.OutRef? && x.ix in row then row[x.ix] else ValueAt(BufferOf(st, x), 0),
        (x: StreamRef) => if x.OutRef? then x.ix in row else x.ix in st.freshIn,
        (x: StreamRef, k: nat) => LookupPast(BufferOf(st, x), x.InRef? && x.ix in st.freshIn, k),
        (w: nat) => WindowReport(spec, LogSeenBy(spec, st, row, o, ts), w, ts))
  }

  /** The row solves the equations of the step: each value is what its expression yields. */
  ghost predicate Solves(spec: Spec, exec: Executor, st: State, row: map<nat, Value>, ts: Time)
    requires Shaped(spec, st)
  {
    forall o | o in row :: o < |spec.outputs| && exec(o, StepCtx(spec, st, row, o, ts)) == Ok(row[o])
  }

  /** The triggers in `done` whose condition is true. */
  function Reports(spec: Spec, row: map<nat, Value>, done: set<nat>, ts: Time): set<(nat, Time)>
    requires done <= row.Keys
  {
    set o | o in done && o < |spec.outputs| && spec.outputs[o].isTrigger && row[o] == Bool(true) :: (o, ts)
  }

  lemma ReportsNext(spec: Spec, row: map<nat, Value>, done: set<nat>, o: nat, ts: Time)
    requires done <= row.Keys && o in row && o !in done && o < |spec.outputs|
    ensures multiset(Reports(spec, row, done + {o}, ts))
            == multiset(Reports(spec, row, done, ts))
               + if spec.outputs[o].isTrigger && row[o] == Bool(true) then multiset{(o, ts)} else multiset{}
  {
    var before, after := Reports(spec, row, done, ts), Reports(spec, row, done + {o}, ts);
    assert (o, ts) !in before;
    if spec.outputs[o].isTrigger && row[o] == Bool(true) {
      assert after == before + {(o, ts)};
    } else {
      assert after == before;
    }
  }

  /** The state once the outputs in `done` have been evaluated to their values in `row`. */
  ghost function Commit(spec: Spec, st: State, row: map<nat, Value>, done: set<nat>, ts: Time): (r: State)
    requires Shaped(spec, st) && done <= row.Keys
    ensures Shaped(spec, r)
  {
    State(
      st.inputs,
      seq(|st.outputs|, o requires 0 <= o < |st.outputs| =>
        if o in done && !spec.outputs[o].isTrigger
        then Pushed(st.outputs[o], spec.outputs[o].bound, row[o]) else st.outputs[o]),
      st.freshIn,
      st.freshOut + (set o | o in done && o < |spec.outputs| && !spec.outputs[o].isTrigger),
      seq(|st.logs|, w requires 0 <= w < |st.logs| =>
        var src := Source(spec, w);
        if IsOutput(src) && src.value.ix in done then st.logs[w] + [Accept(Sample(row[src.value.ix], ts))]
        else st.logs[w]),
      st.fired + multiset(Reports(spec, row, done, ts)),
      st.last)
  }

  /** With its same-instant accesses done, an output observes in the machine what the equations say. */
  lemma MachineObservesEquations(spec: Spec, st: State, row: map<nat, Value>, done: set<nat>, o: nat, ts: Time)
    requires WellFormed(spec) && AllWithinBounds(spec, st) && st.freshOut == {}
    requires o < |spec.outputs| && o !in done && done <= row.Keys
    requires SameInstant(spec, o) * row.Keys <= done
    ensures Agree(Reads(spec.outputs[o].expr), MachineCtx(spec, Commit(spec, st, row, done, ts), ts),
                  StepCtx(spec, st, row, o, ts))
  {
    var mid := Commit(spec, st, row, done, ts);
    var c, d := MachineCtx(spec, mid, ts), StepCtx(spec, st, row, o, ts);
    forall a | a in Reads(spec.outputs[o].expr) ensures AgreeOn(a, c, d) {
      assert Served(spec, a);
      match a
      case Now(x) =>
        if x.OutRef? {
          assert x.ix in SameInstant(spec, o);
        }
      case Past(x, k) =>
        PastObservesStart(spec, st, row, done, x, k, ts);
      case Window(w) =>
        var x := spec.windows[w].target;
        assert Stored(spec, x);
        if x.OutRef? && x.ix != o {
          assert x.ix in SameInstant(spec, o);
        }
        assert mid.logs[w] == LogSeenBy(spec, st, row, o, ts)[w];
    }
  }

  /** A past lookup does not see whether its target has been evaluated in this step. */
  lemma PastObservesStart(spec: Spec, st: State, row: map<nat, Value>, done: set<nat>, x: StreamRef, k: nat, ts: Time)
    requires AllWithinBounds(spec, st) && st.freshOut == {} && done <= row.Keys
    requires Served(spec, Past(x, k))
    ensures var mid := Commit(spec, st, row, done, ts);
            LookupPast(BufferOf(mid, x), IsFresh(mid, x), k)
                == LookupPast(BufferOf(st, x), x.InRef? && x.ix in st.freshIn, k)
  {
    if x.OutRef? && x.ix in done {
      PastLookupIgnoresPush(BufferOf(st, x), BoundOf(spec, x), row[x.ix], k);
    }
  }

  lemma EvaluateOne(spec: Spec, p: Prims, st: State, row: map<nat, Value>, done: set<nat>, o: nat, ts: Time)
    requires WellFormed(spec) && AllWithinBounds(spec, st) && st.freshOut == {}
    requires o in row && o < |spec.outputs| && o !in done && done <= row.Keys
    requires SameInstant(spec, o) * row.Keys <= done
    requires Interpreted(spec, p)(o, StepCtx(spec, st, row, o, ts)) == Ok(row[o])
    ensures EvalStream(spec, Interpreted(spec, p), Commit(spec, st, row, done, ts), o, ts)
            == Ok(Commit(spec, st, row, done + {o}, ts))
  {
    var mid := Commit(spec, st, row, done, ts);
    MachineObservesEquations(spec, st, row, done, o, ts);
    EvalDependsOnReads(p, spec.outputs[o].expr, MachineCtx(spec, mid, ts), StepCtx(spec, st, row, o, ts));
    StoreOne(spec, Interpreted(spec, p), st, row, done, o, ts);
  }

  /** Storing the computed value commits one more output. */
  lemma StoreOne(spec: Spec, exec: Executor, st: State, row: map<nat, Value>, done: set<nat>, o: nat, ts: Time)
    requires Shaped(spec, st) && o in row && o < |spec.outputs| && o !in done && done <= row.Keys
    requires exec(o, MachineCtx(spec, Commit(spec, st, row, done, ts), ts)) == Ok(row[o])
    ensures EvalStream(spec, exec, Commit(spec, st, row, done, ts), o, ts) == Ok(Commit(spec, st, row, done + {o}, ts))
  {
    var stored := StoreValue(spec, Commit(spec, st, row, done, ts), o, row[o], ts);
    var next := Commit(spec, st, row, done + {o}, ts);
    StoreOneBuffer(spec, st, row, done, o, ts);
    StoreOneLog(spec, st, row, done, o, ts);
    ReportsNext(spec, row, done, o, ts);
    assert stored.fired == next.fired;
  }

  lemma StoreOneBuffer(spec: Spec, st: State, row: map<nat, Value>, done: set<nat>, o: nat, ts: Time)
    requires Shaped(spec, st) && o in row && o < |spec.outputs| && o !in done && done <= row.Keys
    ensures var stored := StoreValue(spec, Commit(spec, st, row, done, ts), o, row[o], ts);
            var next := Commit(spec, st, row, done + {o}, ts);
            stored.outputs == next.outputs && stored.freshOut == next.freshOut
  {
    var stored := StoreValue(spec, Commit(spec, st, row, done, ts), o, row[o], ts);
    var next := Commit(spec, st, row, done + {o}, ts);
    assert stored.outputs == next.outputs;
    assert stored.freshOut == next.freshOut;
  }

  lemma StoreOneLog(spec: Spec, st: State, row: map<nat, Value>, done: set<nat>, o: nat, ts: Time)
    requires Shaped(spec, st) && o in row && o < |spec.outputs| && o !in done && done <= row.Keys
    ensures StoreValue(spec, Commit(spec, st, row, done, ts), o, row[o], ts).logs
            == Commit(spec, st, row, done + {o}, ts).logs
  {
    var before, after := Commit(spec, st, row, done, ts).logs, Commit(spec, st, row, done + {o}, ts).logs;
    forall w | 0 <= w < |before| ensures Feed(spec, before, OutRef(o), row[o], ts)[w] == after[w] {
    }
  }

  lemma PrefixDone(spec: Spec, order: seq<nat>, i: nat)
    requires Topological(spec, order) && i < |order|
    ensures order[i] !in Elements(order[..i])
    ensures SameInstant(spec, order[i]) * Elements(order) <= Elements(order[..i])
    ensures Elements(order[..i + 1]) == Elements(order[..i]) + {order[i]}
  {
    assert order[..i + 1] == order[..i] + [order[i]];
    forall t | t in SameInstant(spec, order[i]) && t in order ensures t in order[..i] {
      var j :| 0 <= j < |order| && order[j] == t;
      assert j < i;
      assert order[..i][j] == t;
    }
  }

  lemma EvaluateNext(spec: Spec, p: Prims, st: State, row: map<nat, Value>, order: seq<nat>, i: nat, ts: Time)
    requires WellFormed(spec) && AllWithinBounds(spec, st) && st.freshOut == {}
    requires Topological(spec, order) && i < |order| && Elements(order) == row.Keys
    requires Solves(spec, Interpreted(spec, p), st, row, ts)
    ensures Elements(order[..i]) <= row.Keys && Elements(order[..i + 1]) <= row.Keys
    ensures EvalStreams(spec, Interpreted(spec, p), Commit(spec, st, row, Elements(order[..i]), ts), order[i..], ts)
            == EvalStreams(spec, Interpreted(spec, p), Commit(spec, st, row, Elements(order[..i + 1]), ts),
                           order[i + 1..], ts)
  {
    assert forall x | x in order[..i] :: x in order;
    PrefixDone(spec, order, i);
    assert order[i] in Elements(order);
    EvaluateOne(spec, p, st, row, Elements(order[..i]), order[i], ts);
    StreamsNext(spec, Interpreted(spec, p), Commit(spec, st, row, Elements(order[..i]), ts), order, i, ts);
  }

  lemma StreamsNext(spec: Spec, exec: Executor, st: State, order: seq<nat>, i: nat, ts: Time)
    requires Shaped(spec, st) && i < |order| && EvalStream(spec, exec, st, order[i], ts).Ok?
    ensures EvalStreams(spec, exec, st, order[i..], ts)
            == EvalStreams(spec, exec, EvalStream(spec, exec, st, order[i], ts).value, order[i + 1..], ts)
  {
    assert order[i..][1..] == order[i + 1..];
  }

  /** A solution of the equations is what the machine computes, whichever admissible order it uses. */
  lemma {:induction false} SolutionIsComputed(spec: Spec, p: Prims, st: State, row: map<nat, Value>, order: seq<nat>,
                                              i: nat, ts: Time)
    requires WellFormed(spec) && AllWithinBounds(spec, st) && st.freshOut == {}
    requires Topological(spec, order) && i <= |order| && Elements(order) == row.Keys
    requires Solves(spec, Interpreted(spec, p), st, row, ts)
    ensures Elements(order[..i]) <= row.Keys
    ensures EvalStreams(spec, Interpreted(spec, p), Commit(spec, st, row, Elements(order[..i]), ts), order[i..], ts)
            == Ok(Commit(spec, st, row, row.Keys, ts))
    decreases |order| - i
  {
    assert forall x | x in order[..i] :: x in order;
    if i == |order| {
      assert order[..i] == order;
    } else {
      EvaluateNext(spec, p, st, row, order, i, ts);
      SolutionIsComputed(spec, p, st, row, order, i + 1, ts);
    }
  }

  lemma CommitNothing(spec: Spec, st: State, row: map<nat, Value>, ts: Time)
    requires Shaped(spec, st)
    ensures Commit(spec, st, row, {}, ts) == st
  {
    var c := Commit(spec, st, row, {}, ts);
    assert c.outputs == st.outputs && c.logs == st.logs && c.freshOut == st.freshOut;
    assert Reports(spec, row, {}, ts) == {};
  }

  /** Soundness of the equations for one step. */
  lemma SolutionReached(spec: Spec, p: Prims, st: State, row: map<nat, Value>, order: seq<nat>, ts: Time)
    requires WellFormed(spec) && AllWithinBounds(spec, st) && st.freshOut == {}
    requires Topological(spec, order) && Elements(order) == row.Keys
    requires Solves(spec, Interpreted(spec, p), st, row, ts)
    ensures EvalStreams(spec, Interpreted(spec, p), st, order, ts) == Ok(Commit(spec, st, row, row.Keys, ts))
  {
    SolutionIsComputed(spec, p, st, row, order, 0, ts);
    assert order[..0] == [] && order[0..] == order;
    assert Elements(order[..0]) == {};
    CommitNothing(spec, st, row, ts);
  }

  ghost predicate SameEntry(row: map<nat, Value>, row': map<nat, Value>, t: nat) {
    (t in row <==> t in row') && (t in row ==> row[t] == row'[t])
  }

  /** What an output observes depends on the row only through its same-instant accesses. */
  lemma ObservesSameInstant(spec: Spec, st: State, row: map<nat, Value>, row': map<nat, Value>, o: nat, ts: Time)
    requires WellFormed(spec) && Shaped(spec, st)
    requires o < |spec.outputs| && forall t | t in SameInstant(spec, o) :: SameEntry(row, row', t)
    ensures Agree(Reads(spec.outputs[o].expr), StepCtx(spec, st, row, o, ts), StepCtx(spec, st, row', o, ts))
  {
    var c, d := StepCtx(spec, st, row, o, ts), StepCtx(spec, st, row', o, ts);
    forall a | a in Reads(spec.outputs[o].expr) ensures AgreeOn(a, c, d) {
      assert Served(spec, a);
      match a
      case Now(x) =>
        if x.OutRef? {
          assert x.ix in SameInstant(spec, o);
          assert SameEntry(row, row', x.ix);
        }
      case Past(x, k) =>
      case Window(w) =>
        var x := spec.windows[w].target;
        if x.OutRef? && x.ix != o {
          assert x.ix in SameInstant(spec, o);
          assert SameEntry(row, row', x.ix);
        }
        assert LogSeenBy(spec, st, row, o, ts)[w] == LogSeenBy(spec, st, row', o, ts)[w];
    }
  }

  lemma CommitDependsOnDone(spec: Spec, st: State, row: map<nat, Value>, row': map<nat, Value>, done: set<nat>,
                            ts: Time)
    requires Shaped(spec, st) && done <= row.Keys && done <= row'.Keys
    requires forall o | o in done :: row[o] == row'[o]
    ensures Commit(spec, st, row, done, ts) == Commit(spec, st, row', done, ts)
  {
    var a, b := Commit(spec, st, row, done, ts), Commit(spec, st, row', done, ts);
    assert a.outputs == b.outputs && a.logs == b.logs;
    assert Reports(spec, row, done, ts) == Reports(spec, row', done, ts);
  }

  lemma ExtensionSolvesNew(spec: Spec, p: Prims, st: State, row: map<nat, Value>, o: nat, v: Value, ts: Time)
    requires WellFormed(spec) && AllWithinBounds(spec, st) && st.freshOut == {}
    requires o < |spec.outputs| && o !in row && o !in SameInstant(spec, o)
    requires Interpreted(spec, p)(o, MachineCtx(spec, Commit(spec, st, row, row.Keys, ts), ts)) == Ok(v)
    ensures Interpreted(spec, p)(o, StepCtx(spec, st, row[o := v], o, ts)) == Ok(v)
  {
    var row' := row[o := v];
    CommitDependsOnDone(spec, st, row, row', row.Keys, ts);
    MachineObservesEquations(spec, st, row', row.Keys, o, ts);
    EvalDependsOnReads(p, spec.outputs[o].expr, MachineCtx(spec, Commit(spec, st, row, row.Keys, ts), ts),
                       StepCtx(spec, st, row', o, ts));
  }

  lemma ExtensionSolvesOld(spec: Spec, p: Prims, st: State, row: map<nat, Value>, o: nat, v: Value, q: nat, ts: Time)
    requires WellFormed(spec) && Shaped(spec, st)
    requires Solves(spec, Interpreted(spec, p), st, row, ts)
    requires q in row && q < |spec.outputs| && o !in SameInstant(spec, q)
    ensures Interpreted(spec, p)(q, StepCtx(spec, st, row[o := v], q, ts)) == Ok(row[q])
  {
    ObservesSameInstant(spec, st, row, row[o := v], q, ts);
    EvalDependsOnReads(p, spec.outputs[q].expr, StepCtx(spec, st, row, q, ts), StepCtx(spec, st, row[o := v], q, ts));
  }

  /** Evaluating one more output extends the solution found so far. */
  lemma ExtendSolution(spec: Spec, p: Prims, st: State, row: map<nat, Value>, order: seq<nat>, i: nat, v: Value,
                       ts: Time)
    requires WellFormed(spec) && AllWithinBounds(spec, st) && st.freshOut == {}
    requires Topological(spec, order) && i < |order| && row.Keys == Elements(order[..i])
    requires Solves(spec, Interpreted(spec, p), st, row, ts)
    requires Interpreted(spec, p)(order[i], MachineCtx(spec, Commit(spec, st, row, row.Keys, ts), ts)) == Ok(v)
    ensures order[i] !in row && Solves(spec, Interpreted(spec, p), st, row[order[i] := v], ts)
  {
    var o := order[i];
    PrefixDone(spec, order, i);
    assert order[i] !in SameInstant(spec, order[i]);
    ExtensionSolvesNew(spec, p, st, row, o, v, ts);
    forall q | q in row
      ensures q < |spec.outputs| && Interpreted(spec, p)(q, StepCtx(spec, st, row[o := v], q, ts)) == Ok(row[q])
    {
      var j :| 0 <= j < i && order[j] == q;
      assert order[i] !in SameInstant(spec, order[j]);
      ExtensionSolvesOld(spec, p, st, row, o, v, q, ts);
    }
  }

  /** Completeness: if the machine gets through the step, it has found a solution and stored exactly that. */
  lemma {:induction false} ComputedIsSolution(spec: Spec, p: Prims, st: State, order: seq<nat>, i: nat,
                                              row: map<nat, Value>, ts: Time)
    returns (full: map<nat, Value>)
    requires WellFormed(spec) && AllWithinBounds(spec, st) && st.freshOut == {}
    requires Topological(spec, order) && i <= |order| && row.Keys == Elements(order[..i])
    requires Solves(spec, Interpreted(spec, p), st, row, ts)
    requires EvalStreams(spec, Interpreted(spec, p), Commit(spec, st, row, row.Keys, ts), order[i..], ts).Ok?
    ensures full.Keys == Elements(order)
    ensures Solves(spec, Interpreted(spec, p), st, full, ts)
    decreases |order| - i
  {
    if i == |order| {
      assert order[..i] == order;
      full := row;
    } else {
      var v := Interpreted(spec, p)(order[i], MachineCtx(spec, Commit(spec, st, row, row.Keys, ts), ts)).value;
      var row' := row[order[i] := v];
      assert order[i..][0] == order[i] && order[i..][1..] == order[i + 1..];
      ExtendSolution(spec, p, st, row, order, i, v, ts);
      PrefixDone(spec, order, i);
      assert row'.Keys == row.Keys + {order[i]};
      StepToExtension(spec, p, st, row, order, i, v, ts);
      full := ComputedIsSolution(spec, p, st, order, i + 1, row', ts);
    }
  }

  lemma StepToExtension(spec: Spec, p: Prims, st: State, row: map<nat, Value>, order: seq<nat>, i: nat, v: Value,
                        ts: Time)
    requires WellFormed(spec) && AllWithinBounds(spec, st) && st.freshOut == {}
    requires Topological(spec, order) && i < |order| && row.Keys == Elements(order[..i])
    requires Solves(spec, Interpreted(spec, p), st, row[order[i] := v], ts)
    ensures var row' := row[order[i] := v];
            EvalStream(spec, Interpreted(spec, p), Commit(spec, st, row, row.Keys, ts), order[i], ts)
            == Ok(Commit(spec, st, row', row'.Keys, ts))
  {
    var o := order[i];
    var row' := row[o := v];
    PrefixDone(spec, order, i);
    CommitDependsOnDone(spec, st, row, row', row.Keys, ts);
    assert SameInstant(spec, o) * row'.Keys <= row.Keys by {
      assert order[i] !in SameInstant(spec, order[i]);
    }
    EvaluateOne(spec, p, st, row', row.Keys, o, ts);
    assert row.Keys + {o} == row'.Keys;
  }

  lemma SolutionFound(spec: Spec, p: Prims, st: State, order: seq<nat>, ts: Time) returns (row: map<nat, Value>)
    requires WellFormed(spec) && AllWithinBounds(spec, st) && st.freshOut == {}
    requires Topological(spec, order)
    requires EvalStreams(spec, Interpreted(spec, p), st, order, ts).Ok?
    ensures row.Keys == Elements(order) && Solves(spec, Interpreted(spec, p), st, row, ts)
    ensures EvalStreams(spec, Interpreted(spec, p), st, order, ts) == Ok(Commit(spec, st, row, row.Keys, ts))
  {
    CommitNothing(spec, st, map[], ts);
    var nothing: map<nat, Value> := map[];
    assert nothing.Keys == {} == Elements(order[..0]);
    assert order[0..] == order;
    row := ComputedIsSolution(spec, p, st, order, 0, nothing, ts);
    SolutionReached(spec, p, st, row, order, ts);
  }

  lemma EntryDetermined(spec: Spec, p: Prims, st: State, row: map<nat, Value>, row': map<nat, Value>, o: nat, ts: Time)
    requires WellFormed(spec) && Shaped(spec, st)
    requires o in row && o in row' && o < |spec.outputs|
    requires Solves(spec, Interpreted(spec, p), st, row, ts) && Solves(spec, Interpreted(spec, p), st, row', ts)
    requires forall t | t in SameInstant(spec, o) :: SameEntry(row, row', t)
    ensures row[o] == row'[o]
  {
    ObservesSameInstant(spec, st, row, row', o, ts);
    EvalDependsOnReads(p, spec.outputs[o].expr, StepCtx(spec, st, row, o, ts), StepCtx(spec, st, row', o, ts));
  }

  /** An entry is determined by the entries its output reads. */
  ghost predicate Determined(spec: Spec, row: map<nat, Value>, row': map<nat, Value>, o: nat)
    requires o < |spec.outputs|
  {
    (forall t | t in SameInstant(spec, o) :: SameEntry(row, row', t)) ==> SameEntry(row, row', o)
  }

  lemma {:induction false} DeterminedUpTo(spec: Spec, row: map<nat, Value>, row': map<nat, Value>, order: seq<nat>,
                                          i: nat)
    requires Topological(spec, order) && i <= |order|
    requires Elements(order) == row.Keys == row'.Keys
    requires forall j | 0 <= j < |order| :: Determined(spec, row, row', order[j])
    ensures forall j | 0 <= j < i :: SameEntry(row, row', order[j])
  {
    if i > 0 {
      DeterminedUpTo(spec, row, row', order, i - 1);
      forall t | t in SameInstant(spec, order[i - 1]) ensures SameEntry(row, row', t) {
        EarlierOrAbsent(spec, order, row, row', i - 1, t);
      }
      assert Determined(spec, row, row', order[i - 1]);
    }
  }

  lemma EarlierOrAbsent(spec: Spec, order: seq<nat>, row: map<nat, Value>, row': map<nat, Value>, i: nat, t: nat)
    requires Topological(spec, order) && i < |order| && t in SameInstant(spec, order[i])
    requires Elements(order) == row.Keys == row'.Keys
    requires forall j | 0 <= j < i :: SameEntry(row, row', order[j])
    ensures SameEntry(row, row', t)
  {
    PrefixDone(spec, order, i);
    if t in row {
      assert t in Elements(order[..i]);
    }
  }

  /** Two solutions over the same outputs are equal, if some admissible order exists. */
  lemma SolutionUnique(spec: Spec, p: Prims, st: State, row: map<nat, Value>, row': map<nat, Value>, order: seq<nat>,
                       ts: Time)
    requires WellFormed(spec) && Shaped(spec, st)
    requires Topological(spec, order)
    requires Elements(order) == row.Keys == row'.Keys
    requires Solves(spec, Interpreted(spec, p), st, row, ts) && Solves(spec, Interpreted(spec, p), st, row', ts)
    ensures row == row'
  {
    forall j | 0 <= j < |order| ensures Determined(spec, row, row', order[j]) {
      assert order[j] in Elements(order);
      if forall t | t in SameInstant(spec, order[j]) :: SameEntry(row, row', t) {
        EntryDetermined(spec, p, st, row, row', order[j], ts);
      }
    }
    DeterminedUpTo(spec, row, row', order, |order|);
    forall t | t in row ensures row[t] == row'[t] {
      assert t in Elements(order);
      assert SameEntry(row, row', t);
    }
  }

  /**
   Confluence: two admissible orders of the same outputs end in the same buffers, freshness
   sets, window contents and reported triggers, or both panic.
   */
  lemma Confluence(spec: Spec, p: Prims, st: State, first: seq<nat>, second: seq<nat>, ts: Time)
    requires WellFormed(spec) && AllWithinBounds(spec, st) && st.freshOut == {}
    requires Topological(spec, first) && Topological(spec, second)
    requires Elements(first) == Elements(second)
    ensures EvalStreams(spec, Interpreted(spec, p), st, first, ts)
            == EvalStreams(spec, Interpreted(spec, p), st, second, ts)
  {
    if EvalStreams(spec, Interpreted(spec, p), st, first, ts).Ok? {
      var row := SolutionFound(spec, p, st, first, ts);
      SolutionReached(spec, p, st, row, second, ts);
    } else if EvalStreams(spec, Interpreted(spec, p), st, second, ts).Ok? {
      var row := SolutionFound(spec, p, st, second, ts);
      SolutionReached(spec, p, st, row, first, ts);
      assert false;
    }
  }
}
