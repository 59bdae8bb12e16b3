/**
 Accepted synchronous accesses are always fresh: the target is due or active whenever the reader is,
 and it is evaluated earlier.
 */
module FreshAccesses {
  import opened Values
  import opened Sequences
  import opened Numbers
  import opened Rationals
  import opened Clocks
  import opened Activations
  import opened Lowering
  import opened Schedules
  import opened ScheduleCycles
  import opened Pipeline
  import E = Expressions
  import M = Evaluator
  import BufferSizes
  import D = Dependencies
  import Pruning
  import Histories
  import OneStep

  // ---------- the type check ----------

  /** An input is active when it has a value. */
  function ClockOf(p: Program, x: E.StreamRef): StreamTy<E.StreamRef>
    requires Known(p, x)
  {
    match x
    case InRef(i) => Event(Stream(x))
    case OutRef(o) => p.outputs[o].clock
  }

  ghost predicate PositiveClock(clock: StreamTy<E.StreamRef>) {
    clock.RealTime? ==> Positive(clock.freq)
  }

  /** Every synchronous access is accepted by the check of the two clocks. */
  ghost predicate Accepted(p: Program) {
    && Checked(p)
    && forall o, x | 0 <= o < |p.outputs| && x in E.SyncReads(p.outputs[o].expr) ::
         AcceptedAccess(p, p.outputs[o].clock, x)
  }

  ghost predicate AcceptedAccess(p: Program, reader: StreamTy<E.StreamRef>, x: E.StreamRef) {
    && Known(p, x) && PositiveClock(reader) && PositiveClock(ClockOf(p, x))
    && IsValid(reader, ClockOf(p, x)) == Just(true)
  }

  // ---------- events ----------

  /** Whether a stream gets a value in an event with the given inputs. */
  ghost predicate GetsValue(spec: M.Spec, ins: set<nat>, x: E.StreamRef) {
    match x
    case InRef(i) => i in ins
    case OutRef(o) => o in Flatten(spec.layers) && Histories.IsActive(spec, o, ins)
  }

  /** Whenever an event-driven output is active, so is every stream it accesses synchronously. */
  lemma ActiveTarget(p: Program, spec: M.Spec, table: map<nat, nat>, requirements: seq<BufferSizes.StorageRequirement>,
                     ins: set<nat>, o: nat, x: E.StreamRef)
    requires Accepted(p) && IsLowered(p, spec, table, requirements)
    requires Histories.IsActive(spec, o, ins) && x in E.SyncReads(spec.outputs[o].expr)
    ensures GetsValue(spec, ins, x)
  {
    assert spec.outputs[o] == LowerOutput(p, requirements, o);
    assert AcceptedAccess(p, p.outputs[o].clock, x);
    AcceptedEventAccess(p.outputs[o].clock, ClockOf(p, x), LiveInputs(ins));
    match x
    case InRef(i) =>
      assert Holds(Stream(x), LiveInputs(ins));
    case OutRef(q) =>
      assert spec.outputs[q] == LowerOutput(p, requirements, q);
      assert IsEventDriven(p, q);
  }

  /** Declaratively: in every step of an event, a synchronous access observes a current value. */
  lemma EventReadsFresh(p: Program, spec: M.Spec, table: map<nat, nat>,
                        requirements: seq<BufferSizes.StorageRequirement>,
                        prims: E.Prims, past: Histories.Trace, step: M.Step, row: Histories.Row, o: nat, x: E.StreamRef)
    requires Accepted(p) && IsLowered(p, spec, table, requirements) && step.Event?
    requires Histories.SatisfiesEquations(spec, prims, past, step, row)
    requires o in row.outs && x in E.SyncReads(spec.outputs[o].expr)
    ensures Histories.DeclarativeCtx(spec, past, row, o).isFresh(x)
  {
    RowHoldsActive(spec, prims, past, step, row, E.OutRef(o));
    ActiveTarget(p, spec, table, requirements, row.ins.Keys, o, x);
    RowHoldsActive(spec, prims, past, step, row, x);
  }

  /** The row of an event holds exactly the streams that get a value in it. */
  lemma RowHoldsActive(spec: M.Spec, prims: E.Prims, past: Histories.Trace, step: M.Step, row: Histories.Row,
                       x: E.StreamRef)
    requires step.Event? && Histories.SatisfiesEquations(spec, prims, past, step, row)
    ensures Histories.ValueIn(row, x).Just? <==> GetsValue(spec, row.ins.Keys, x)
  {
  }

  // ---------- deadlines ----------

  lemma ScaledMeasures(slow: Rat, fast: Rat)
    requires Positive(slow) && Positive(fast) && Measures(Period(fast), Period(slow))
    ensures Measures(PeriodOf(fast), PeriodOf(slow))
  {
    var k: nat :| IsMultiple(Period(slow), Period(fast), k);
    var a, c := PeriodOf(slow), PeriodOf(fast);
    NewRatReduced(NANOSECONDS * slow.den, slow.num);
    NewRatReduced(NANOSECONDS * fast.den, fast.num);
    var a', c' := Rat(NANOSECONDS * slow.den, slow.num), Rat(NANOSECONDS * fast.den, fast.num);
    assert IsMultiple(a', c', k) by {
      // slow.den * fast.num == k * fast.den * slow.num
      assert NANOSECONDS * (slow.den * fast.num) == NANOSECONDS * (k * fast.den * slow.num);
      assert (NANOSECONDS * slow.den) * fast.num == NANOSECONDS * (slow.den * fast.num);
      assert k * (NANOSECONDS * fast.den) * slow.num == NANOSECONDS * (k * fast.den * slow.num);
    }
    EqualMultiple(a, a', c, c', k);
  }

  /** Being a multiple does not depend on the representation. */
  lemma EqualMultiple(a: Rat, a': Rat, c: Rat, c': Rat, k: nat)
    requires Positive(a) && Positive(a') && Positive(c) && Positive(c') && Equal(a, a') && Equal(c, c')
             && IsMultiple(a', c', k)
    ensures IsMultiple(a, c, k)
  {
    assert IsMultiple(a, a', 1);
    assert IsMultiple(c', c, 1);
    MultipleTransitive(a, a', c', 1, k);
    MultipleTransitive(a, c', c, k, 1);
  }

  /** Whenever a periodic output is due, so is every stream it accesses synchronously. */
  lemma DueTarget(p: Program, table: map<nat, nat>, g: Rat, deadline: Schedules.Deadline, gap: nat, step: nat, o: nat,
                  x: E.StreamRef)
    requires Accepted(p) && Positive(g)
    requires DeadlineExact(TimeDrivenOf(p, |p.outputs|), g, LayerOf(p, table), deadline, gap, step)
    requires o in deadline.due && o < |p.outputs| && x in E.SyncReads(p.outputs[o].expr)
    ensures x.OutRef? && x.ix in deadline.due
  {
    var streams := TimeDrivenOf(p, |p.outputs|);
    TimeDrivenMembers(p, |p.outputs|);
    var i :| 0 <= i < |streams| && streams[i].reference == o;
    assert AcceptedAccess(p, p.outputs[o].clock, x);
    var slow := p.outputs[o].clock.freq;
    AcceptedPeriodicAccess(p.outputs[o].clock, ClockOf(p, x));
    var fast := p.outputs[x.ix].clock.freq;
    ScaledMeasures(slow, fast);
    assert multiset(deadline.due)[o] >= 1;
    FasterStreamsDue(PeriodOf(slow), PeriodOf(fast), g, step);
    var j :| 0 <= j < |streams| && streams[j] == Schedules.TimeDriven.TimeDriven(x.ix, PeriodOf(fast));
    assert multiset(deadline.due)[streams[j].reference] == 1;
  }

  /** Declaratively: at every deadline, a synchronous access observes a current value. */
  lemma DeadlineReadsFresh(p: Program, spec: M.Spec, table: map<nat, nat>,
                           requirements: seq<BufferSizes.StorageRequirement>,
                           prims: E.Prims, past: Histories.Trace, row: Histories.Row, ts: Time,
                           g: Rat, deadline: Schedules.Deadline, gap: nat, step: nat, o: nat, x: E.StreamRef)
    requires Accepted(p) && IsLowered(p, spec, table, requirements) && Positive(g)
    requires DeadlineExact(TimeDrivenOf(p, |p.outputs|), g, LayerOf(p, table), deadline, gap, step)
    requires Histories.SatisfiesEquations(spec, prims, past, M.Deadline(deadline.due, ts), row)
    requires o in row.outs && x in E.SyncReads(spec.outputs[o].expr)
    ensures Histories.DeclarativeCtx(spec, past, row, o).isFresh(x)
  {
    assert spec.outputs[o] == LowerOutput(p, requirements, o);
    DueTarget(p, table, g, deadline, gap, step, o, x);
  }

  // ---------- the machine ----------

  lemma {:induction false} EvaluatedAreFresh(spec: M.Spec, exec: M.Executor, st: M.State, order: seq<nat>, ts: Time,
                                             mid: M.State)
    requires M.Shaped(spec, st) && M.EvalStreams(spec, exec, st, order, ts) == Ok(mid)
    ensures mid.freshIn == st.freshIn && st.freshOut <= mid.freshOut
    ensures forall o: nat | o in order :: o < |spec.outputs| && (!spec.outputs[o].isTrigger ==> o in mid.freshOut)
    decreases |order|
  {
    if order != [] {
      var next := M.EvalStream(spec, exec, st, order[0], ts).value;
      EvaluatedAreFresh(spec, exec, next, order[1..], ts, mid);
      assert order == [order[0]] + order[1..];
    }
  }

  /** In the machine: what has been evaluated before an output in its step, or accepted, is marked as fresh. */
  lemma FreshWhenEvaluated(spec: M.Spec, exec: M.Executor, st: M.State, order: seq<nat>, i: nat, ts: Time, mid: M.State,
                           x: E.StreamRef)
    requires M.Shaped(spec, st) && i <= |order| && M.EvalStreams(spec, exec, st, order[..i], ts) == Ok(mid)
    requires M.Stored(spec, x) && if x.InRef? then x.ix in st.freshIn else x.ix in order[..i]
    ensures M.IsFresh(mid, x)
  {
    EvaluatedAreFresh(spec, exec, st, order[..i], ts, mid);
  }

  /** In an admissible order, an output comes after every output of the step whose current value it reads. */
  lemma TargetIsEarlier(s: M.Spec, order: seq<nat>, i: nat, t: nat)
    requires OneStep.Topological(s, order) && i < |order| && t in order
    requires E.Now(E.OutRef(t)) in E.Reads(s.outputs[order[i]].expr)
    ensures t in order[..i]
  {
    OneStep.PrefixDone(s, order, i);
    assert t in OneStep.SameInstant(s, order[i]);
    assert t in Elements(order);
  }

  /** The read has an edge in the dependency graph, or projections do no harm anyway. */
  ghost predicate Ordered(p: Program, spec: M.Spec, table: map<nat, nat>, o: nat, x: E.StreamRef) {
    o < |p.outputs| && (E.Now(x) in D.KeptReads(p.outputs[o].expr) || DropsHarmless(p, spec, table))
  }

  lemma OrderedTarget(p: Program, spec: M.Spec, table: map<nat, nat>, requirements: seq<BufferSizes.StorageRequirement>,
                      order: seq<nat>, i: nat, t: nat)
    requires Checked(p) && IsLowered(p, spec, table, requirements)
    requires forall s | Admissible(p, s, table) && s.layers == spec.layers :: OneStep.Topological(s, order)
    requires i < |order| && t in order && order[i] < |p.outputs| && Ordered(p, spec, table, order[i], E.OutRef(t))
    requires E.OutRef(t) in E.SyncReads(p.outputs[order[i]].expr)
    ensures t in order[..i]
  {
    var e := p.outputs[order[i]].expr;
    assert spec.outputs[order[i]] == LowerOutput(p, requirements, order[i]);
    if E.Now(E.OutRef(t)) in D.KeptReads(e) {
      PrunedIsAdmissible(p, spec, table, requirements);
      Pruning.PrunedReads(e);
      TargetIsEarlier(Pruning.Pruned(spec), order, i, t);
    } else {
      HarmlessIsAdmissible(p, spec, table, requirements);
      E.SyncReadsAreReads(e);
      TargetIsEarlier(spec, order, i, t);
    }
  }

  lemma ActiveOrderTopological(p: Program, spec: M.Spec, table: map<nat, nat>, ins: set<nat>, s: M.Spec)
    requires Admissible(p, s, table) && s.layers == spec.layers
    requires |s.outputs| == |spec.outputs| && forall o | 0 <= o < |s.outputs| ::
               s.outputs[o].clock == spec.outputs[o].clock
    ensures OneStep.Topological(s, Histories.ActiveAmong(spec, Flatten(spec.layers), ins))
  {
    LayersAreTopological(p, s, table);
    Histories.ActiveAmongTopological(s, Flatten(spec.layers), ins);
    SameActive(spec, s, Flatten(spec.layers), ins);
  }

  lemma {:induction false} SameActive(spec: M.Spec, s: M.Spec, order: seq<nat>, ins: set<nat>)
    requires |s.outputs| == |spec.outputs| && forall o | 0 <= o < |s.outputs| ::
               s.outputs[o].clock == spec.outputs[o].clock
    ensures Histories.ActiveAmong(s, order, ins) == Histories.ActiveAmong(spec, order, ins)
    decreases |order|
  {
    if order != [] {
      SameActive(spec, s, order[1..], ins);
      assert Histories.IsActive(s, order[0], ins) <==> Histories.IsActive(spec, order[0], ins);
    }
  }

  lemma ClocksLowered(p: Program, spec: M.Spec, table: map<nat, nat>, requirements: seq<BufferSizes.StorageRequirement>,
                      s: M.Spec)
    requires IsLowered(p, spec, table, requirements) && Admissible(p, s, table)
    ensures |s.outputs| == |spec.outputs| && forall o | 0 <= o < |s.outputs| ::
              s.outputs[o].clock == spec.outputs[o].clock
  {
    forall o | 0 <= o < |s.outputs| ensures s.outputs[o].clock == spec.outputs[o].clock {
      assert spec.outputs[o] == LowerOutput(p, requirements, o);
    }
  }

  /**
   In the machine, for an event: the accepted inputs and the earlier layers make every synchronous
   access fresh that has an edge, and every one if projections do no harm.
   */
  lemma EventMachineFresh(p: Program, spec: M.Spec, table: map<nat, nat>,
                          requirements: seq<BufferSizes.StorageRequirement>,
                          exec: M.Executor, st: M.State, order: seq<nat>, i: nat, ts: Time, mid: M.State,
                          x: E.StreamRef)
    requires Accepted(p) && IsLowered(p, spec, table, requirements) && M.Shaped(spec, st)
    requires order == Histories.ActiveAmong(spec, Flatten(spec.layers), st.freshIn) && i < |order|
    requires M.EvalStreams(spec, exec, st, order[..i], ts) == Ok(mid) && Ordered(p, spec, table, order[i], x)
    requires order[i] < |spec.outputs| && x in E.SyncReads(spec.outputs[order[i]].expr)
    ensures M.IsFresh(mid, x)
  {
    Histories.ActiveAmongElements(spec, Flatten(spec.layers), st.freshIn, order[i]);
    assert order[i] in order && spec.outputs[order[i]] == LowerOutput(p, requirements, order[i]);
    ActiveTarget(p, spec, table, requirements, st.freshIn, order[i], x);
    Histories.ActiveAmongElements(spec, Flatten(spec.layers), st.freshIn, x.ix);
    assert AcceptedAccess(p, p.outputs[order[i]].clock, x);
    BoundOfStream(p, requirements, spec.layers, x);
    if x.OutRef? {
      forall s | Admissible(p, s, table) && s.layers == spec.layers ensures OneStep.Topological(s, order) {
        ClocksLowered(p, spec, table, requirements, s);
        ActiveOrderTopological(p, spec, table, st.freshIn, s);
      }
      OrderedTarget(p, spec, table, requirements, order, i, x.ix);
    }
    FreshWhenEvaluated(spec, exec, st, order, i, ts, mid, x);
  }

  /**
   In the machine, for a deadline: the due list in layer order makes every synchronous access fresh
   that has an edge, and every one if projections do no harm.
   */
  lemma DeadlineMachineFresh(p: Program, spec: M.Spec, table: map<nat, nat>,
                             requirements: seq<BufferSizes.StorageRequirement>,
                             exec: M.Executor, st: M.State, g: Rat, deadline: Schedules.Deadline, gap: nat, step: nat,
                             i: nat, ts: Time, mid: M.State, x: E.StreamRef)
    requires Accepted(p) && IsLowered(p, spec, table, requirements) && M.Shaped(spec, st) && Positive(g)
    requires DeadlineExact(TimeDrivenOf(p, |p.outputs|), g, LayerOf(p, table), deadline, gap, step)
             && i < |deadline.due|
    requires M.EvalStreams(spec, exec, st, deadline.due[..i], ts) == Ok(mid)
    requires Ordered(p, spec, table, deadline.due[i], x)
    requires deadline.due[i] < |spec.outputs| && x in E.SyncReads(spec.outputs[deadline.due[i]].expr)
    ensures M.IsFresh(mid, x)
  {
    var o := deadline.due[i];
    assert spec.outputs[o] == LowerOutput(p, requirements, o);
    assert o in deadline.due && AcceptedAccess(p, p.outputs[o].clock, x);
    DueTarget(p, table, g, deadline, gap, step, o, x);
    BoundOfStream(p, requirements, spec.layers, x);
    forall s | Admissible(p, s, table) && s.layers == spec.layers ensures OneStep.Topological(s, deadline.due) {
      DueIsTopological(p, s, table, g, deadline, gap, step);
    }
    OrderedTarget(p, spec, table, requirements, deadline.due, i, x.ix);
    FreshWhenEvaluated(spec, exec, st, deadline.due, i, ts, mid, x);
  }
}
