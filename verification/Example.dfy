/**
 A small program that meets all conditions of the end-to-end results: `x := x[-1].defaults(to: y)`
 latches the first value of `y`.
 */
module Example {
  import opened Values
  import opened Sequences
  import opened Graphs
  import opened Clocks
  import opened Activations
  import opened Lowering
  import opened Pipeline
  import opened Offline
  import opened Progress
  import opened TypedRuns
  import D = Dependencies
  import E = Expressions
  import Controller
  import FreshAccesses
  import M = Evaluator
  import BufferSizes
  import Histories
  import OneStep

  /** Output 0 is `y`, a copy of the input; output 1 is `x`. */
  function Latch(): Program {
    var clock := Event(Stream(E.InRef(0)));
    var y := E.StreamAccess(E.InRef(0), E.Sync);
    var x := E.Default(E.OffsetLookup(E.OutRef(1), E.PastDiscreteOffset(1)), E.StreamAccess(E.OutRef(0), E.Sync));
    Program(1, [Output(y, clock, false), Output(x, clock, false)], [])
  }

  function Read(node: nat, target: nat, offset: int): D.Dep {
    Edge(node, target, D.Access(D.Expression, D.Discrete(offset)))
  }

  lemma LatchEdges()
    ensures DependencyGraph(Latch()) == Graph(3, [Read(1, 0, 0), Read(2, 2, -1), Read(2, 1, 0)])
  {
    var p := Latch();
    var names := NamesOf(p);
    assert D.EdgesOf(names, p.outputs[0].expr, 1) == [Read(1, 0, 0)];
    assert D.EdgesOf(names, p.outputs[1].expr, 2) == [Read(2, 2, -1)] + [Read(2, 1, 0)];
    assert EdgesUpTo(p, 1) == [Read(1, 0, 0)];
    assert EdgesUpTo(p, 2) == [Read(1, 0, 0)] + ([Read(2, 2, -1)] + [Read(2, 1, 0)]);
  }

  lemma LatchAcyclic()
    ensures Acyclic(D.SameInstantLinks([Read(1, 0, 0), Read(2, 2, -1), Read(2, 1, 0)]))
  {
    DescendingAcyclic(D.SameInstantLinks([Read(1, 0, 0), Read(2, 2, -1), Read(2, 1, 0)]));
  }

  lemma LatchReads()
    ensures E.Reads(Latch().outputs[0].expr) == {E.Now(E.InRef(0))} == D.KeptReads(Latch().outputs[0].expr)
    ensures E.Reads(Latch().outputs[1].expr) == {E.Past(E.OutRef(1), 1), E.Now(E.OutRef(0))}
            == D.KeptReads(Latch().outputs[1].expr)
  {
  }

  lemma LatchChecked()
    ensures Checked(Latch()) && NothingProjectedAway(Latch())
  {
    LatchEdges();
    LatchReads();
  }

  /** The program passes all checks, no read is projected away, and its same-instant accesses are acyclic. */
  lemma LatchMeetsConditions()
    ensures Checked(Latch()) && FreshAccesses.Accepted(Latch()) && NothingProjectedAway(Latch())
    ensures Acyclic(D.SameInstantLinks(DependencyGraph(Latch()).edges))
  {
    LatchChecked();
    LatchEdges();
    LatchAcyclic();
  }

  // ---------- a run ----------

  function OneEvent(): M.Step {
    M.Event([Bool(true)], 0)
  }

  function FirstRow(): Histories.Row {
    Histories.Row(0, map[0 := Bool(true)], map[0 := Bool(true), 1 := Bool(true)])
  }

  /** At the first event `x[-1]` has no value, so `x` is the value of `y`. */
  lemma FirstValues(spec: M.Spec, prims: E.Prims, o: nat)
    requires o < 2
    ensures E.EvalExpr(prims, Latch().outputs[o].expr, Histories.DeclarativeCtx(spec, [], FirstRow(), o))
            == Ok(Bool(true))
  {
    Histories.HistorySnoc([], FirstRow(), E.InRef(0));
    Histories.HistorySnoc([], FirstRow(), E.OutRef(0));
  }

  lemma LatchOutput(spec: M.Spec, table: map<nat, nat>, requirements: seq<BufferSizes.StorageRequirement>, o: nat)
    requires IsLowered(Latch(), spec, table, requirements) && o < 2
    ensures |spec.outputs| == 2 && spec.outputs[o].expr == Latch().outputs[o].expr
    ensures o in Flatten(spec.layers) && Histories.IsActive(spec, o, {0})
    ensures forall q: nat | q in Flatten(spec.layers) :: q < 2
  {
    assert spec.outputs[o] == LowerOutput(Latch(), requirements, o);
    assert IsEventDriven(Latch(), o);
    assert E.InRef(0) in LiveInputs({0});
  }

  lemma FirstRowSatisfies(spec: M.Spec, table: map<nat, nat>, requirements: seq<BufferSizes.StorageRequirement>,
                          prims: E.Prims)
    requires IsLowered(Latch(), spec, table, requirements)
    ensures Histories.SatisfiesEquations(spec, prims, [], OneEvent(), FirstRow())
  {
    var row := FirstRow();
    FirstRowActive(spec, table, requirements, row);
    forall o | o in row.outs
      ensures o < |spec.outputs|
      ensures E.EvalExpr(prims, spec.outputs[o].expr, Histories.DeclarativeCtx(spec, [], row, o)) == Ok(row.outs[o])
    {
      LatchOutput(spec, table, requirements, o);
      FirstValues(spec, prims, o);
    }
  }

  lemma FirstRowActive(spec: M.Spec, table: map<nat, nat>, requirements: seq<BufferSizes.StorageRequirement>,
                       row: Histories.Row)
    requires IsLowered(Latch(), spec, table, requirements) && row == FirstRow()
    ensures Histories.HasActiveOutputs(spec, OneEvent(), row)
  {
    LatchOutput(spec, table, requirements, 0);
    LatchOutput(spec, table, requirements, 1);
    assert Histories.Present(OneEvent().vals) == row.ins && row.ins.Keys == {0};
  }

  /**
   All premises of the refinement hold together: the lowered program is well-formed and well-ordered,
   and its run has a model.
   */
  lemma LatchRefined(spec: M.Spec, table: map<nat, nat>, requirements: seq<BufferSizes.StorageRequirement>,
                     prims: E.Prims)
    requires IsLowered(Latch(), spec, table, requirements)
    ensures OneStep.WellFormed(spec) && Histories.WellOrdered(spec, [OneEvent()])
    ensures Histories.IsModel(spec, prims, [OneEvent()], [FirstRow()])
    ensures M.RunAll(spec, M.Interpreted(spec, prims), [OneEvent()]).Ok?
  {
    LatchMeetsConditions();
    NothingDropped(Latch(), spec, table);
    LoweredIsWellFormed(Latch(), spec, table, requirements);
    LatchOrdered(spec, table, requirements);
    FirstRowSatisfies(spec, table, requirements, prims);
    assert [OneEvent()][..0] == [] && [FirstRow()][..0] == [];
    assert Histories.IsModel(spec, prims, [], []);
    Histories.EvaluatorRefines(spec, prims, [OneEvent()], [FirstRow()]);
  }

  lemma LatchOrdered(spec: M.Spec, table: map<nat, nat>, requirements: seq<BufferSizes.StorageRequirement>)
    requires IsLowered(Latch(), spec, table, requirements)
    requires OneStep.Topological(spec, Flatten(spec.layers))
    ensures Histories.WellOrdered(spec, [OneEvent()])
  {
    LatchOutput(spec, table, requirements, 0);
    forall o: nat | o in Flatten(spec.layers)
      ensures o < |spec.outputs| && spec.outputs[o].clock.EventDriven? && Runnable(spec.outputs[o].clock.ac)
    {
      assert spec.outputs[o] == LowerOutput(Latch(), requirements, o);
    }
  }

  // ---------- its types ----------

  /** All streams are Boolean, and no operator is used. */
  function LatchTypes(): E.Signature {
    E.Signature(_ => E.BoolT, _ => E.BoolT, (_, _) => Panic, (_, _, _) => Panic, (_, _) => Panic, (_, _, _) => Panic)
  }

  lemma LatchTypesOf(s: E.Signature, o: nat)
    requires s == LatchTypes() && o < 2
    ensures E.TypeOf(s, Latch().outputs[o].expr) == Ok(E.BoolT)
  {
  }

  lemma LatchTyped(spec: M.Spec, table: map<nat, nat>, requirements: seq<BufferSizes.StorageRequirement>)
    requires IsLowered(Latch(), spec, table, requirements)
    ensures TypedSpec(spec, LatchTypes()) && |spec.inputs| == 1 && spec.windows == []
  {
    forall o | 0 <= o < |spec.outputs|
      ensures E.TypeOf(LatchTypes(), spec.outputs[o].expr) == Ok(E.BoolT) && !spec.outputs[o].isTrigger
    {
      LatchOutput(spec, table, requirements, o);
      LatchTypesOf(LatchTypes(), o);
      assert spec.outputs[o] == LowerOutput(Latch(), requirements, o);
    }
  }

  ghost predicate BooleanEvent(step: M.Step) {
    step.Event? && |step.vals| == 1 && (step.vals[0].None? || step.vals[0].Bool?)
  }

  lemma LatchTypedFor(spec: M.Spec, table: map<nat, nat>, requirements: seq<BufferSizes.StorageRequirement>,
                      prims: E.Prims,
                      events: seq<M.Step>)
    requires IsLowered(Latch(), spec, table, requirements) && E.TypedPrims(prims, LatchTypes())
    requires forall i | 0 <= i < |events| :: BooleanEvent(events[i])
    ensures TypedFor(spec, prims, events)
  {
    LatchTyped(spec, table, requirements);
    NoOperators(prims, LatchTypes());
    BooleanInputs(spec, LatchTypes(), events);
  }

  lemma NoOperators(prims: E.Prims, s: E.Signature)
    requires s == LatchTypes()
    ensures E.TotalPrims(prims, s)
  {
  }

  lemma BooleanInputs(spec: M.Spec, s: E.Signature, events: seq<M.Step>)
    requires s == LatchTypes() && |spec.inputs| == 1 && forall i | 0 <= i < |events| :: BooleanEvent(events[i])
    ensures TypedInputs(spec, s, events)
  {
    forall i | 0 <= i < |events| ensures TypedInput(spec, s, events[i]) {
      assert BooleanEvent(events[i]);
    }
  }

  /** The end-to-end result, for this program: on any Boolean events it has a schedule and runs through. */
  method RunLatch(prims: E.Prims, events: seq<M.Step>)
    returns (ok: bool, spec: M.Spec, st: M.State, schedule: Option<seq<Pipeline.Schedules.Deadline>>)
    requires E.TypedPrims(prims, LatchTypes())
    requires Controller.TimesAscend(events) && forall i | 0 <= i < |events| :: BooleanEvent(events[i])
    ensures schedule == Just([]) && (ok <==> events != [])
    ensures ok ==> Ran(Histories.Intended(spec), spec, prims, st, events, [])
  {
    LatchMeetsConditions();
    LatchConditions();
    var table;
    ok, spec, table, st, schedule := RunOffline(Latch(), prims, events, 1);
    ghost var requirements :| IsLowered(Latch(), spec, table, requirements);
    LatchTypedFor(spec, table, requirements, prims, events);
  }

  /** It has no periodic stream, no trigger, and no read is projected away. */
  lemma LatchConditions()
    ensures ClocksInferred(Latch()) && TimeDrivenOf(Latch(), 2) == []
    ensures TriggersReadNoWindow(Latch()) && NoSyncDropped(Latch())
  {
    LatchMeetsConditions();
    assert TimeDrivenOf(Latch(), 1) == [];
    forall o, x | 0 <= o < 2 && x in E.SyncReads(Latch().outputs[o].expr)
      ensures E.Now(x) in D.KeptReads(Latch().outputs[o].expr)
    {
      E.SyncReadsAreReads(Latch().outputs[o].expr);
    }
  }
}
