/**
 A projection that discards the last value of an output of the same layer: no synchronous read is
 projected away, so the evaluator computes what the program says.
 */
module HeldProjection {
  import opened Values
  import opened Sequences
  import opened Graphs
  import opened Clocks
  import opened Activations
  import opened Lowering
  import opened Pipeline
  import opened Offline
  import opened Progress
  import opened TypedRuns
  import opened Example
  import D = Dependencies
  import E = Expressions
  import Controller
  import FreshAccesses
  import M = Evaluator
  import BufferSizes
  import Histories
  import ProjectedReads

  /** Output 0 projects `(i, y.hold(or: true)).0`, and output 1 is `y`, a copy of the input `i`. */
  function Holding(): Program {
    var i := E.StreamAccess(E.InRef(0), E.Sync);
    var held := E.Default(E.StreamAccess(E.OutRef(1), E.Hold), E.LoadConstant(E.BoolC(true)));
    var clock := Event(Stream(E.InRef(0)));
    Program(1, [Output(E.TupleAccess(E.TupleExpr([i, held]), 0), clock, false), Output(i, clock, false)], [])
  }

  lemma HoldingEdges()
    ensures DependencyGraph(Holding()) == Graph(3, [ProjectedReads.ReadOfInput(1), ProjectedReads.ReadOfInput(2)])
  {
    var p := Holding();
    var names := NamesOf(p);
    assert D.EdgesOf(names, p.outputs[0].expr, 1) == [ProjectedReads.ReadOfInput(1)] by {
      assert p.outputs[0].expr.tuple.elements[0] == E.StreamAccess(E.InRef(0), E.Sync);
    }
    assert D.EdgesOf(names, p.outputs[1].expr, 2) == [ProjectedReads.ReadOfInput(2)];
    assert EdgesUpTo(p, 1) == [ProjectedReads.ReadOfInput(1)];
    assert EdgesUpTo(p, 2) == [ProjectedReads.ReadOfInput(1)] + [ProjectedReads.ReadOfInput(2)];
  }

  lemma HoldingReads()
    ensures var e := Holding().outputs[0].expr;
            && E.Reads(e) == {E.Now(E.InRef(0)), E.Now(E.OutRef(1))} && D.KeptReads(e) == {E.Now(E.InRef(0))}
            && E.SyncReads(e) == {E.InRef(0)}
    ensures E.TypeOf(LatchTypes(), Holding().outputs[0].expr) == Ok(E.BoolT)
  {
    var es := Holding().outputs[0].expr.tuple.elements;
    assert es[1..] == [es[1]] && es[1..][1..] == [];
    assert E.ReadsAll(es[1..]) == E.Reads(es[1]) + E.ReadsAll(es[1..][1..]);
    assert E.SyncReadsAll(es[1..]) == E.SyncReads(es[1]) + E.SyncReadsAll(es[1..][1..]);
    assert E.TypesOf(LatchTypes(), es[1..]) == Ok([E.BoolT] + []);
  }

  lemma HoldingGraph()
    ensures ValidGraph(DependencyGraph(Holding())) && BufferSizes.OffsetsInRange(DependencyGraph(Holding()).edges)
  {
    HoldingEdges();
  }

  lemma HoldingChecked()
    ensures Checked(Holding())
  {
    HoldingGraph();
    forall o, a | 0 <= o < 2 && a in E.Reads(Holding().outputs[o].expr)
      ensures KnownAccess(Holding(), a) && !a.Window? {
      HoldingKnown(o, a);
    }
  }

  lemma HoldingKnown(o: nat, a: E.Access)
    requires o < 2 && a in E.Reads(Holding().outputs[o].expr)
    ensures a == E.Now(E.InRef(0)) || a == E.Now(E.OutRef(1))
  {
    HoldingReads();
  }

  lemma HoldingSyncReads(o: nat, x: E.StreamRef)
    requires o < 2 && x in E.SyncReads(Holding().outputs[o].expr)
    ensures x == E.InRef(0) && E.Now(x) in D.KeptReads(Holding().outputs[o].expr)
  {
    HoldingReads();
  }

  /** The program passes all checks; the last value of `y` is projected away, but nothing synchronous. */
  lemma HoldingAccepted()
    ensures FreshAccesses.Accepted(Holding()) && !NothingProjectedAway(Holding()) && NoSyncDropped(Holding())
    ensures Acyclic(D.SameInstantLinks(DependencyGraph(Holding()).edges))
  {
    HoldingChecked();
    HoldingEdges();
    ProjectedReads.ProjectingAcyclic();
    forall o, x | 0 <= o < 2 && x in E.SyncReads(Holding().outputs[o].expr)
      ensures FreshAccesses.AcceptedAccess(Holding(), Holding().outputs[o].clock, x)
      ensures E.Now(x) in D.KeptReads(Holding().outputs[o].expr)
    {
      HoldingSyncReads(o, x);
    }
    HoldingReads();
  }

  lemma HoldingClocks()
    ensures ClocksInferred(Holding()) && TimeDrivenOf(Holding(), 2) == [] && TriggersReadNoWindow(Holding())
  {
    HoldingChecked();
    assert TimeDrivenOf(Holding(), 1) == [];
  }

  lemma HoldingTypedFor(spec: M.Spec, table: map<nat, nat>, requirements: seq<BufferSizes.StorageRequirement>,
                        prims: E.Prims, events: seq<M.Step>)
    requires IsLowered(Holding(), spec, table, requirements) && E.TypedPrims(prims, LatchTypes())
    requires forall i | 0 <= i < |events| :: BooleanEvent(events[i])
    ensures TypedFor(spec, prims, events)
  {
    HoldingReads();
    forall o | 0 <= o < |spec.outputs|
      ensures E.TypeOf(LatchTypes(), spec.outputs[o].expr) == Ok(E.BoolT) && !spec.outputs[o].isTrigger
    {
      assert spec.outputs[o] == LowerOutput(Holding(), requirements, o);
    }
    NoOperators(prims, LatchTypes());
    BooleanInputs(spec, LatchTypes(), events);
  }

  /** On any Boolean events it runs through, and computes what it says. */
  method RunHolding(prims: E.Prims, events: seq<M.Step>)
    returns (ok: bool, spec: M.Spec, st: M.State, schedule: Option<seq<Pipeline.Schedules.Deadline>>)
    requires E.TypedPrims(prims, LatchTypes())
    requires Controller.TimesAscend(events) && forall i | 0 <= i < |events| :: BooleanEvent(events[i])
    ensures schedule == Just([]) && (ok <==> events != [])
    ensures ok ==> Ran(Histories.Intended(spec), spec, prims, st, events, [])
  {
    HoldingAccepted();
    HoldingClocks();
    var table;
    ok, spec, table, st, schedule := RunOffline(Holding(), prims, events, 1);
    ghost var requirements :| IsLowered(Holding(), spec, table, requirements);
    HoldingTypedFor(spec, table, requirements, prims, events);
  }
}
