/** A program that reads a window: `output c @1Hz := x.aggregate(over: 5s, using: count)`. */
module CountingWindow {
  import opened Values
  import opened Sequences
  import opened Graphs
  import opened Rationals
  import opened Clocks
  import opened Lowering
  import opened Pipeline
  import opened Offline
  import opened Progress
  import opened TypedRuns
  import opened SpecWindows
  import opened Windows
  import Aggregations
  import TypedWindows
  import OneFrequency
  import ProgramReplays
  import D = Dependencies
  import E = Expressions
  import Controller
  import FreshAccesses
  import M = Evaluator
  import BufferSizes
  import Histories

  const FIVE_SECONDS: nat := 5_000_000_000

  const HERTZ: Rat := Rat(1, 1)

  /** How often `x` had a value in the last five seconds. */
  function CountOfX(): M.SlidingWindow {
    WindowOver(E.InRef(0), Aggregations.Count(), FIVE_SECONDS, false)
  }

  function Counting(): Program {
    Program(1, [Output(E.WindowLookup(0), RealTime(HERTZ), false)], [CountOfX()])
  }

  lemma CountFaithful()
    ensures M.Faithful(CountOfX())
  {
    Aggregations.CountLawful();
    DequeIsFaithful(E.InRef(0), Aggregations.Count(), FIVE_SECONDS, false);
  }

  /** The window counts the samples in its range. */
  lemma CountValue(h: seq<Sample>, ts: Time)
    ensures CountOfX().value(h, ts) == Ok(Unsigned(|InRange(FIVE_SECONDS, h, ts)|))
  {
    Aggregations.CountMeaning(ts, InRange(FIVE_SECONDS, h, ts));
  }

  function ReadOfWindow(node: nat): D.Dep {
    Edge(node, 0, D.Access(D.Expression, D.SlidingWindow))
  }

  lemma CountingGraph()
    ensures DependencyGraph(Counting()) == Graph(2, [ReadOfWindow(1)])
  {
    var p := Counting();
    assert D.EdgesOf(NamesOf(p), p.outputs[0].expr, 1) == [ReadOfWindow(1)];
    assert EdgesUpTo(p, 1) == EdgesUpTo(p, 0) + [ReadOfWindow(1)];
  }

  /** The program passes all checks. */
  lemma CountingAccepted()
    ensures FreshAccesses.Accepted(Counting()) && Acyclic(D.SameInstantLinks(DependencyGraph(Counting()).edges))
  {
    CountingGraph();
    CountFaithful();
    assert forall l | l in D.SameInstantLinks([ReadOfWindow(1)]) :: l.0 > l.1;
    DescendingAcyclic(D.SameInstantLinks([ReadOfWindow(1)]));
  }

  /** Its only window is read by an output, and nothing is projected away. */
  lemma CountingConditions()
    ensures Checked(Counting()) && OneFrequency.RunsAt(Counting(), HERTZ)
    ensures TriggersReadNoWindow(Counting()) && NoSyncDropped(Counting())
  {
    CountingAccepted();
    assert Counting().outputs[0].clock.RealTime?;
  }

  // ---------- its types ----------

  /** The input is a signed and the output an unsigned number, and no operator is used. */
  function CountTypes(): E.Signature {
    E.Signature((x: E.StreamRef) => if x.InRef? then E.IntT else E.UIntT, _ => E.UIntT, (_, _) => Panic,
                (_, _, _) => Panic, (_, _) => Panic, (_, _, _) => Panic)
  }

  ghost predicate NumberEvent(step: M.Step) {
    step.Event? && |step.vals| == 1 && (step.vals[0].None? || step.vals[0].Signed?)
  }

  lemma CountingTypedFor(spec: M.Spec, table: map<nat, nat>, requirements: seq<BufferSizes.StorageRequirement>,
                         prims: E.Prims, events: seq<M.Step>)
    requires IsLowered(Counting(), spec, table, requirements) && E.TypedPrims(prims, CountTypes())
    requires forall i | 0 <= i < |events| :: NumberEvent(events[i])
    ensures TypedFor(spec, prims, events)
  {
    var s := CountTypes();
    assert spec.outputs[0] == LowerOutput(Counting(), requirements, 0);
    TypedWindows.CountTyped(E.InRef(0), E.IntT, FIVE_SECONDS, false);
    CountTotal(prims, s);
    NumberInputs(spec, s, events);
  }

  lemma CountTotal(prims: E.Prims, s: E.Signature)
    requires s == CountTypes()
    ensures E.TotalPrims(prims, s)
  {
  }

  lemma NumberInputs(spec: M.Spec, s: E.Signature, events: seq<M.Step>)
    requires |spec.inputs| == 1 && s.stream(E.InRef(0)) == E.IntT
    requires forall i | 0 <= i < |events| :: NumberEvent(events[i])
    ensures TypedInputs(spec, s, events)
  {
    forall i | 0 <= i < |events| ensures TypedInput(spec, s, events[i]) {
      assert NumberEvent(events[i]);
    }
  }

  // ---------- its runs ----------

  /** What an output observes of the window if it is linked. */
  lemma LinkedCount(spec: M.Spec, past: Histories.Trace, row: Histories.Row, o: nat)
    requires spec.windows == [CountOfX()] && 0 in spec.linked
    ensures Histories.DeclarativeCtx(spec, past, row, o).window(0)
            == Ok(Unsigned(|InRange(FIVE_SECONDS, Histories.TimedHistory(past + [row], E.InRef(0)), row.ts)|))
  {
    assert spec.windows[0] == CountOfX() && M.Source(spec, 0) == Just(E.InRef(0));
    var h := Histories.SourceHistory(past + [row], Just(E.InRef(0)));
    CountValue(h, row.ts);
    assert Histories.DeclarativeCtx(spec, past, row, o).window(0) == CountOfX().value(h, row.ts);
  }

  /** The specification has the output and the window of the program. */
  ghost predicate IsCounting(spec: M.Spec) {
    |spec.outputs| == 1 && spec.windows == [CountOfX()] && spec.outputs[0].expr == E.WindowLookup(0)
  }

  lemma CountingLowered(p: Program, spec: M.Spec, table: map<nat, nat>,
                        requirements: seq<BufferSizes.StorageRequirement>)
    requires p == Counting() && IsLowered(p, spec, table, requirements)
    ensures IsCounting(Histories.Intended(spec)) && 0 in Histories.Intended(spec).linked
  {
    assert spec.outputs[0] == LowerOutput(p, requirements, 0);
  }

  lemma CountedStep(spec: M.Spec, prims: E.Prims, past: Histories.Trace, step: M.Step, row: Histories.Row)
    requires IsCounting(spec) && 0 in spec.linked && 0 in row.outs
    requires Histories.SatisfiesEquations(spec, prims, past, step, row)
    ensures row.outs[0]
            == Unsigned(|InRange(FIVE_SECONDS, Histories.TimedHistory(past + [row], E.InRef(0)), row.ts)|)
  {
    LinkedCount(spec, past, row, 0);
  }

  /** In what the program says, `c` is the number of values of `x` in the last five seconds. */
  lemma CountingMeaning(spec: M.Spec, prims: E.Prims, run: seq<M.Step>, t: Histories.Trace, n: nat)
    requires IsCounting(spec) && 0 in spec.linked
    requires Histories.IsModel(spec, prims, run, t) && n < |t| && 0 in t[n].outs
    ensures t[n].outs[0]
            == Unsigned(|InRange(FIVE_SECONDS, Histories.TimedHistory(t[..n] + [t[n]], E.InRef(0)), t[n].ts)|)
  {
    Histories.ModelAt(spec, prims, run, t, n);
    CountedStep(spec, prims, t[..n], run[n], t[n]);
  }

  /** The output has its turn every second, from the start. */
  ghost predicate EverySecond(deadlines: seq<Pipeline.Schedules.Deadline>) {
    deadlines != [] && forall k: nat :: Controller.DeadlineTime(deadlines, k) == k * 1_000_000_000
                                        && Controller.DueAt(deadlines, k) == [0]
  }

  lemma CountsEverySecond(table: map<nat, nat>, deadlines: seq<Pipeline.Schedules.Deadline>)
    requires Checked(Counting()) && OneFrequency.RunsAt(Counting(), HERTZ)
    requires IsScheduleOf(Counting(), table, deadlines)
    ensures EverySecond(deadlines)
  {
    forall k: nat
      ensures deadlines != [] && Controller.DeadlineTime(deadlines, k) == k * 1_000_000_000
              && Controller.DueAt(deadlines, k) == [0]
    {
      ProgramReplays.WholePeriods(Counting(), HERTZ, 1_000_000_000, table, deadlines, k);
      OnlyZero(Controller.DueAt(deadlines, k));
    }
  }

  lemma OnlyZero(due: seq<nat>)
    requires NoDuplicates(due) && forall o: nat :: o in due <==> o == 0
    ensures due == [0]
  {
    assert 0 in due;
    assert forall i | 0 <= i < |due| :: due[i] in due;
    Pigeonhole(due, 1);
  }

  /** On any events with numbers it runs through, every second, and computes what it says. */
  method RunCounting(prims: E.Prims, events: seq<M.Step>)
    returns (ok: bool, spec: M.Spec, st: M.State, schedule: Option<seq<Pipeline.Schedules.Deadline>>)
    requires E.TypedPrims(prims, CountTypes())
    requires Controller.TimesAscend(events) && forall i | 0 <= i < |events| :: NumberEvent(events[i])
    ensures schedule.Just? && (ok <==> events != []) && EverySecond(schedule.value)
    ensures ok ==> Ran(Histories.Intended(spec), spec, prims, st, events, schedule.value)
    ensures IsCounting(Histories.Intended(spec)) && 0 in Histories.Intended(spec).linked
  {
    CountingAccepted();
    CountingConditions();
    OneFrequency.OneFrequencyScheduled(Counting(), HERTZ);
    var table;
    ok, spec, table, st, schedule := RunOffline(Counting(), prims, events, 1);
    ghost var requirements :| IsLowered(Counting(), spec, table, requirements);
    CountingTypedFor(spec, table, requirements, prims, events);
    CountingLowered(Counting(), spec, table, requirements);
    CountsEverySecond(table, schedule.value);
  }
}
