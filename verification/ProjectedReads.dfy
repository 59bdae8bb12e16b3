/**
 A projection out of a tuple literal drops the dependency edges of the other entries, while the
 evaluator evaluates all of them: an accepted program whose evaluation order is wrong.
 */
module ProjectedReads {
  import opened Values
  import opened Sequences
  import opened Graphs
  import opened Clocks
  import opened Activations
  import opened Layering
  import opened ComputeGraphs
  import opened LayerTables
  import opened Lowering
  import opened Pipeline
  import opened BufferSizes
  import D = Dependencies
  import E = Expressions
  import EventLayers
  import FreshAccesses
  import Histories
  import M = Evaluator
  import LateReads
  import Progress

  /** Output 0 projects `(i, y).0`, and output 1 is `y`, a copy of the input `i`. */
  function Projecting(): Program {
    var i := E.StreamAccess(E.InRef(0), E.Sync);
    var y := E.StreamAccess(E.OutRef(1), E.Sync);
    var clock := Event(Stream(E.InRef(0)));
    Program(1, [Output(E.TupleAccess(E.TupleExpr([i, y]), 0), clock, false), Output(i, clock, false)], [])
  }

  function ReadOfInput(node: nat): D.Dep {
    Edge(node, 0, D.Access(D.Expression, D.Discrete(0)))
  }

  lemma ProjectingEdges()
    ensures DependencyGraph(Projecting()) == Graph(3, [ReadOfInput(1), ReadOfInput(2)])
  {
    var p := Projecting();
    var names := NamesOf(p);
    assert D.EdgesOf(names, p.outputs[0].expr, 1) == [ReadOfInput(1)] by {
      var tuple := p.outputs[0].expr.tuple;
      assert tuple.elements[0] == E.StreamAccess(E.InRef(0), E.Sync);
    }
    assert D.EdgesOf(names, p.outputs[1].expr, 2) == [ReadOfInput(2)];
    assert EdgesUpTo(p, 1) == [ReadOfInput(1)];
    assert EdgesUpTo(p, 2) == [ReadOfInput(1)] + [ReadOfInput(2)];
  }

  lemma ProjectingAcyclic()
    ensures Acyclic(D.SameInstantLinks([ReadOfInput(1), ReadOfInput(2)]))
  {
    var links := D.SameInstantLinks([ReadOfInput(1), ReadOfInput(2)]);
    assert forall l | l in links :: l.0 > 0 && l.1 == 0;
    forall w: seq<nat> | Walk(links, w) && |w| >= 2 ensures w[0] != w[|w| - 1] {
      assert (w[0], w[1]) in links && (w[|w| - 2], w[|w| - 1]) in links;
    }
  }

  lemma ProjectingChecked()
    ensures Checked(Projecting()) && !NothingProjectedAway(Projecting())
  {
    ProjectingEdges();
    ProjectingReads();
  }

  /** The program passes every check. */
  lemma ProjectingAccepted()
    ensures Checked(Projecting()) && FreshAccesses.Accepted(Projecting())
    ensures Acyclic(D.SameInstantLinks(DependencyGraph(Projecting()).edges))
    ensures !NothingProjectedAway(Projecting())
  {
    ProjectingChecked();
    ProjectingEdges();
    ProjectingReads();
    ProjectingAcyclic();
  }

  lemma ProjectingReads()
    ensures var p := Projecting();
            && E.Reads(p.outputs[0].expr) == {E.Now(E.InRef(0)), E.Now(E.OutRef(1))}
            && D.KeptReads(p.outputs[0].expr) == {E.Now(E.InRef(0))}
            && E.SyncReads(p.outputs[0].expr) == {E.InRef(0), E.OutRef(1)}
  {
    var p := Projecting();
    var es := p.outputs[0].expr.tuple.elements;
    assert es[1..] == [es[1]] && es[1..][1..] == [];
    assert E.ReadsAll(es[1..]) == E.Reads(es[1]) + E.ReadsAll(es[1..][1..]);
    assert E.SyncReadsAll(es[1..]) == E.SyncReads(es[1]) + E.SyncReadsAll(es[1..][1..]);
  }

  // ---------- its layers ----------

  ghost function ProjectingNeeds(): set<(ComputeStep, ComputeStep)> {
    OwnNeeds(0) + OwnNeeds(1) + OwnNeeds(2) + {(Evaluate(1), Evaluate(0)), (Evaluate(2), Evaluate(0))}
  }

  lemma RetainedOfProjecting()
    ensures Retained(Projecting(), true, 3) == [0, 1, 2]
    ensures RetainedEdges([ReadOfInput(1), ReadOfInput(2)], [0, 1, 2]) == [ReadOfInput(1), ReadOfInput(2)]
  {
    var p := Projecting();
    assert Retained(p, true, 1) == [0] && Retained(p, true, 2) == [0, 1];
    assert [ReadOfInput(1), ReadOfInput(2)][..1] == [ReadOfInput(1)];
    assert RetainedEdges([ReadOfInput(1)], [0, 1, 2]) == [ReadOfInput(1)];
  }

  lemma NeedOfRead(node: nat)
    ensures NeedOf(ReadOfInput(node)) == {(Evaluate(node), Evaluate(0))}
  {
  }

  lemma NeedsOfReads()
    ensures AllNeeds([0, 1, 2], [ReadOfInput(1), ReadOfInput(2)]) == ProjectingNeeds()
  {
    TwoReadsNeeds(ReadOfInput(1), ReadOfInput(2));
    NeedOfRead(1);
    NeedOfRead(2);
    var first, second := NeedOf(ReadOfInput(1)), NeedOf(ReadOfInput(2));
    assert first + second == {(Evaluate(1), Evaluate(0)), (Evaluate(2), Evaluate(0))};
  }

  lemma TwoReadsNeeds(first: D.Dep, second: D.Dep)
    ensures AllNeeds([0, 1, 2], [first, second])
            == OwnNeeds(0) + OwnNeeds(1) + OwnNeeds(2) + (NeedOf(first) + NeedOf(second))
  {
  }

  lemma NeedsOfProjecting()
    ensures NeedsOfKind(Projecting(), true) == ProjectingNeeds()
  {
    ProjectingEdges();
    RetainedOfProjecting();
    NeedsOfReads();
  }

  function Height(s: ComputeStep): nat {
    match s
    case Invoke(_) => 0
    case Extend(_) => 1
    case Terminate(_) => 1
    case Evaluate(id) => if id == 0 then 2 else 3
  }

  lemma {:induction false} HeightBoundsPaths(w: seq<ComputeStep>)
    requires Walk(ProjectingNeeds(), w)
    ensures |w| <= Height(w[0]) + 1
  {
    if |w| >= 2 {
      assert (w[0], w[1]) in ProjectingNeeds();
      WalkPart(ProjectingNeeds(), w, 1, |w|);
      HeightBoundsPaths(w[1..]);
    }
  }

  /** Both outputs are in layer 3. */
  lemma SameLayer(id: nat, k: nat)
    requires id == 1 || id == 2
    requires LongestPath(ProjectingNeeds(), Evaluate(id), k)
    ensures k == 3
  {
    var w := [Evaluate(id), Evaluate(0), Extend(0), Invoke(0)];
    assert Walk(ProjectingNeeds(), w) && |w| == 4 && w[0] == Evaluate(id);
    assert HasPath(ProjectingNeeds(), Evaluate(id), 3);
    var v :| Walk(ProjectingNeeds(), v) && v[0] == Evaluate(id) && |v| == k + 1;
    HeightBoundsPaths(v);
  }

  lemma {:induction false} OneLayerOrder(layer: nat -> nat, n: nat)
    requires layer(0) == 3 && layer(1) == 3
    ensures EventLayers.UpToLayer([0, 1], layer, n) == if n <= 3 then [] else [0, 1]
    decreases n
  {
    if n > 0 {
      OneLayerOrder(layer, n - 1);
      assert [0, 1][..1] == [0] && [0][..0] == [];
      assert EventLayers.AtLayer([0], layer, n - 1) == if n == 4 then [0] else [];
      assert EventLayers.AtLayer([0, 1], layer, n - 1) == if n == 4 then [0] + [1] else [];
    }
  }

  lemma OutputIsEvent(o: nat)
    requires o < 2
    ensures OfKind(Projecting(), true, 1 + o) && Projecting().inputs == 1
  {
  }

  lemma OutputLayer(p: Program, spec: M.Spec, table: map<nat, nat>, requirements: seq<StorageRequirement>, n: nat)
    requires IsLowered(p, spec, table, requirements) && OfKind(p, true, n) && (n == 1 || n == 2)
    requires NeedsOfKind(p, true) == ProjectingNeeds()
    ensures n in table && table[n] == 3
  {
    LayerExact(p, spec, table, requirements, true, n);
    SameLayer(n, table[n]);
  }

  lemma LayersOfTable(table: map<nat, nat>)
    requires 1 in table && table[1] == 3 && 2 in table && table[2] == 3
    ensures LayerOf(Projecting(), table)(0) == 3 && LayerOf(Projecting(), table)(1) == 3
  {
    OutputIsEvent(0);
    LayerInTable(Projecting(), table, 0);
    LayerInTable(Projecting(), table, 1);
  }

  lemma ProjectingLayers(spec: M.Spec, table: map<nat, nat>, requirements: seq<StorageRequirement>)
    requires IsLowered(Projecting(), spec, table, requirements)
    ensures 1 in table && table[1] == 3 && 2 in table && table[2] == 3
  {
    NeedsOfProjecting();
    OutputIsEvent(0);
    OutputIsEvent(1);
    OutputLayer(Projecting(), spec, table, requirements, 1);
    OutputLayer(Projecting(), spec, table, requirements, 2);
  }

  lemma ProjectingRefs()
    ensures EventRefs(Projecting(), 2) == [0, 1]
  {
    assert EventRefs(Projecting(), 1) == [0];
  }

  /** Whatever lowering computes, the projection is evaluated before `y`. */
  lemma ProjectionComesFirst(spec: M.Spec, table: map<nat, nat>, requirements: seq<StorageRequirement>)
    requires IsLowered(Projecting(), spec, table, requirements)
    ensures Flatten(spec.layers) == [0, 1]
  {
    var layer := LayerOf(Projecting(), table);
    ProjectingLayers(spec, table, requirements);
    LayersOfTable(table);
    ProjectingRefs();
    var n :| EventLayers.AllLayers([0, 1], layer, Flatten(spec.layers), n);
    OneLayerOrder(layer, n);
    assert 0 in [0, 1];
  }

  // ---------- its run ----------

  function OneEvent(): M.Step {
    M.Event([Bool(true)], 0)
  }

  function ExpectedRow(): Histories.Row {
    Histories.Row(0, map[0 := Bool(true)], map[0 := Bool(true), 1 := Bool(true)])
  }

  lemma BothActive(spec: M.Spec, table: map<nat, nat>, requirements: seq<StorageRequirement>)
    requires IsLowered(Projecting(), spec, table, requirements)
    ensures |spec.outputs| == 2 && Histories.IsActive(spec, 0, {0}) && Histories.IsActive(spec, 1, {0})
    ensures spec.outputs[0].expr == Projecting().outputs[0].expr && spec.outputs[1].expr == Projecting().outputs[1].expr
    ensures forall o | 0 <= o < 2 :: spec.outputs[o].clock == M.EventDriven(Stream(E.InRef(0)))
  {
    var p := Projecting();
    forall o | 0 <= o < 2 ensures spec.outputs[o] == LowerOutput(p, requirements, o) {
    }
    assert E.InRef(0) in LiveInputs({0});
  }

  lemma ExpectedRowSatisfies(spec: M.Spec, table: map<nat, nat>, requirements: seq<StorageRequirement>, prims: E.Prims)
    requires IsLowered(Projecting(), spec, table, requirements)
    ensures Histories.SatisfiesEquations(spec, prims, [], OneEvent(), ExpectedRow())
  {
    ExpectedRowActive(spec, table, requirements, ExpectedRow());
    ProjectingSolved(spec, table, requirements, prims);
  }

  lemma ExpectedRowActive(spec: M.Spec, table: map<nat, nat>, requirements: seq<StorageRequirement>, row: Histories.Row)
    requires IsLowered(Projecting(), spec, table, requirements) && row == ExpectedRow()
    ensures Histories.HasActiveOutputs(spec, OneEvent(), row)
  {
    BothActive(spec, table, requirements);
    ProjectionComesFirst(spec, table, requirements);
    BothInRow(spec, row);
  }

  lemma BothInRow(spec: M.Spec, row: Histories.Row)
    requires row == ExpectedRow() && Flatten(spec.layers) == [0, 1] && |spec.inputs| == 1
    requires Histories.IsActive(spec, 0, {0}) && Histories.IsActive(spec, 1, {0})
    ensures Histories.HasActiveOutputs(spec, OneEvent(), row)
  {
    assert Histories.Present(OneEvent().vals) == row.ins && row.ins.Keys == {0};
  }

  /** The declarative equations of the event have a solution. */
  lemma ProjectingHasModel(spec: M.Spec, table: map<nat, nat>, requirements: seq<StorageRequirement>, prims: E.Prims)
    requires IsLowered(Projecting(), spec, table, requirements)
    ensures Histories.HasModel(spec, prims, [OneEvent()])
  {
    ExpectedRowSatisfies(spec, table, requirements, prims);
    OneRowModel(spec, prims, OneEvent(), ExpectedRow());
  }

  lemma OneRowModel(spec: M.Spec, prims: E.Prims, step: M.Step, row: Histories.Row)
    requires Histories.SatisfiesEquations(spec, prims, [], step, row)
    ensures Histories.HasModel(spec, prims, [step])
  {
    assert [step][..0] == [] && [row][..0] == [];
    assert Histories.IsModel(spec, prims, [], []);
    assert Histories.IsModel(spec, prims, [step], [row]);
  }

  lemma ProjectingSolved(spec: M.Spec, table: map<nat, nat>, requirements: seq<StorageRequirement>, prims: E.Prims)
    requires IsLowered(Projecting(), spec, table, requirements)
    ensures forall o | 0 <= o < 2 ::
              && o < |spec.outputs|
              && E.EvalExpr(prims, spec.outputs[o].expr, Histories.DeclarativeCtx(spec, [], ExpectedRow(), o))
                 == Ok(Bool(true))
  {
    BothActive(spec, table, requirements);
    forall o | 0 <= o < 2
      ensures E.EvalExpr(prims, spec.outputs[o].expr, Histories.DeclarativeCtx(spec, [], ExpectedRow(), o))
              == Ok(Bool(true))
    {
      SolvedAt(spec, prims, o);
    }
  }

  lemma SolvedAt(spec: M.Spec, prims: E.Prims, o: nat)
    requires o < 2 && o < |spec.outputs| && spec.outputs[o].expr == Projecting().outputs[o].expr
    ensures E.EvalExpr(prims, spec.outputs[o].expr, Histories.DeclarativeCtx(spec, [], ExpectedRow(), o))
            == Ok(Bool(true))
  {
    ExpectedCtx(spec, o);
    ProjectionValue(prims, Histories.DeclarativeCtx(spec, [], ExpectedRow(), o));
  }

  lemma ExpectedCtx(spec: M.Spec, o: nat)
    ensures var c := Histories.DeclarativeCtx(spec, [], ExpectedRow(), o);
            && c.isFresh(E.InRef(0)) && c.isFresh(E.OutRef(1))
            && c.latest(E.InRef(0)) == Bool(true) && c.latest(E.OutRef(1)) == Bool(true)
  {
    Histories.HistorySnoc([], ExpectedRow(), E.InRef(0));
    Histories.HistorySnoc([], ExpectedRow(), E.OutRef(1));
  }

  /** The projection evaluates both entries. */
  lemma ProjectionValue(prims: E.Prims, c: E.Ctx)
    requires c.isFresh(E.InRef(0))
    ensures E.EvalExpr(prims, Projecting().outputs[0].expr, c)
            == if c.isFresh(E.OutRef(1)) then Ok(c.latest(E.InRef(0))) else Panic
    ensures E.EvalExpr(prims, Projecting().outputs[1].expr, c) == Ok(c.latest(E.InRef(0)))
  {
    var i, y := E.StreamAccess(E.InRef(0), E.Sync), E.StreamAccess(E.OutRef(1), E.Sync);
    assert [i, y][1..] == [y] && [y][1..] == [];
    var first, second := c.latest(E.InRef(0)), c.latest(E.OutRef(1));
    assert E.EvalExpr(prims, i, c) == Ok(first);
    assert E.EvalAll(prims, [y], c) == if c.isFresh(E.OutRef(1)) then Ok([second] + []) else Panic;
    PairValue(prims, i, y, c);
  }

  lemma PairValue(prims: E.Prims, a: E.Expr, b: E.Expr, c: E.Ctx)
    requires E.EvalExpr(prims, a, c).Ok?
    ensures var rest := E.EvalAll(prims, [b], c);
            E.EvalAll(prims, [a, b], c) == if rest.Panic? then Panic
                else Ok([E.EvalExpr(prims, a, c).value] + rest.value)
  {
    assert [a, b][1..] == [b];
  }

  /** The evaluator panics on it: the projection reads `y` before `y` is evaluated. */
  lemma ProjectingPanics(spec: M.Spec, table: map<nat, nat>, requirements: seq<StorageRequirement>, prims: E.Prims)
    requires IsLowered(Projecting(), spec, table, requirements)
    ensures M.RunAll(spec, M.Interpreted(spec, prims), [OneEvent()]).Panic?
  {
    var exec := M.Interpreted(spec, prims);
    var start := M.ClearFreshness(M.InitialState(spec)).(last := Just(0));
    var accepted := M.AcceptInput(spec, start, 0, Bool(true), 0);
    assert M.AcceptInputs(spec, start, [Bool(true)], 0, 0) == Ok(start);
    assert M.AcceptInputs(spec, start, [Bool(true)], 1, 0) == Ok(accepted);
    LayersPanic(spec, table, requirements, prims, accepted);
    assert [OneEvent()][..0] == [];
    assert M.RunAll(spec, exec, []) == Ok(M.InitialState(spec));
  }

  lemma LayersPanic(spec: M.Spec, table: map<nat, nat>, requirements: seq<StorageRequirement>, prims: E.Prims,
                    st: M.State)
    requires IsLowered(Projecting(), spec, table, requirements) && M.Shaped(spec, st)
    requires st.freshIn == {0} && st.freshOut == {}
    ensures M.EvalLayers(spec, M.Interpreted(spec, prims), st, spec.layers, 0).Panic?
  {
    BothActive(spec, table, requirements);
    ProjectionComesFirst(spec, table, requirements);
    Histories.LayersEvaluateActive(spec, M.Interpreted(spec, prims), st, spec.layers, 0);
    FirstActive(spec);
    FirstPanics(spec, prims, st, Histories.ActiveAmong(spec, [0, 1], {0}));
  }

  lemma FirstPanics(spec: M.Spec, prims: E.Prims, st: M.State, order: seq<nat>)
    requires M.Shaped(spec, st) && st.freshIn == {0} && st.freshOut == {} && order != [] && order[0] == 0
    requires |spec.outputs| == 2 && spec.outputs[0].expr == Projecting().outputs[0].expr
    ensures M.EvalStreams(spec, M.Interpreted(spec, prims), st, order, 0).Panic?
  {
    ProjectionValue(prims, M.MachineCtx(spec, st, 0));
  }

  lemma FirstActive(spec: M.Spec)
    requires Histories.IsActive(spec, 0, {0})
    ensures Histories.ActiveAmong(spec, [0, 1], {0}) != [] && Histories.ActiveAmong(spec, [0, 1], {0})[0] == 0
  {
  }

  /** The projected read of `y` does harm: both outputs are in the same layer. */
  lemma ProjectingHarmful(spec: M.Spec, table: map<nat, nat>, requirements: seq<StorageRequirement>)
    requires IsLowered(Projecting(), spec, table, requirements)
    ensures !DropsHarmless(Projecting(), spec, table)
  {
    ProjectingReads();
    ProjectingLayers(spec, table, requirements);
    LayersOfTable(table);
    OutputIsEvent(0);
    OutputIsEvent(1);
    var y := E.Now(E.OutRef(1));
    assert ReadsNow([], 0, y, 1) && SameKind(Projecting(), 0, 1);
    assert !Harmless(Projecting(), spec, table, 0, y);
  }

  /** In its layers the projection reads `y` too early, and it always performs the read. */
  lemma ProjectingLate(spec: M.Spec, table: map<nat, nat>, requirements: seq<StorageRequirement>)
    requires IsLowered(Projecting(), spec, table, requirements)
    ensures !LateReads.SyncInOrder(spec, Flatten(spec.layers)) && Progress.DroppedSyncStrict(Projecting())
  {
    var p := Projecting();
    BothActive(spec, table, requirements);
    ProjectionComesFirst(spec, table, requirements);
    ProjectingReads();
    assert LateReads.ReadsLate(spec, [0, 1], 0, 1);
    forall o, x | 0 <= o < 2 && x in E.SyncReads(p.outputs[o].expr)
      ensures Progress.EdgeOrStrict(p.outputs[o].expr, x) {
      StrictReads(o);
    }
  }

  lemma StrictReads(o: nat)
    requires o < 2
    ensures E.SyncReads(Projecting().outputs[o].expr) == LateReads.StrictSync(Projecting().outputs[o].expr)
  {
    if o == 0 {
      ProjectingReads();
      var es := Projecting().outputs[0].expr.tuple.elements;
      assert es[1..] == [es[1]] && es[1..][1..] == [];
      assert LateReads.StrictSyncOf(es[1..], 1)
          == LateReads.StrictSync(es[1]) + LateReads.StrictSyncOf(es[1..][1..], 0);
    }
  }

  /**
   Reads that come too early do break the refinement: this program is accepted, its equations are
   solvable, its projection always reads `y` too early, and the evaluator panics.
   */
  lemma ProjectionBreaksRefinement(spec: M.Spec, table: map<nat, nat>, requirements: seq<StorageRequirement>,
                                   prims: E.Prims)
    requires IsLowered(Projecting(), spec, table, requirements)
    ensures FreshAccesses.Accepted(Projecting()) && Progress.DroppedSyncStrict(Projecting())
    ensures !LateReads.SyncInOrder(spec, Flatten(spec.layers)) && !DropsHarmless(Projecting(), spec, table)
    ensures Histories.HasModel(spec, prims, [OneEvent()])
    ensures M.RunAll(spec, M.Interpreted(spec, prims), [OneEvent()]).Panic?
  {
    ProjectingAccepted();
    ProjectingHarmful(spec, table, requirements);
    ProjectingLate(spec, table, requirements);
    ProjectingHasModel(spec, table, requirements, prims);
    ProjectingPanics(spec, table, requirements, prims);
  }
}
