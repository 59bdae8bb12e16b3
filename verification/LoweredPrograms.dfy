/** What lowering makes of a program: the same expressions and clocks, and buffers of exactly the size they need. */
module LoweredPrograms {
  import opened Values
  import opened Sequences
  import opened Graphs
  import opened Stores
  import opened Activations
  import opened Lowering
  import opened Pipeline
  import opened BufferSizes
  import opened Accesses
  import D = Dependencies
  import E = Expressions
  import M = Evaluator
  import Histories
  import Pruning

  /** The specification has the program's inputs, windows, expressions, triggers and clocks; triggers keep no values. */
  lemma SameProgram(p: Program, spec: M.Spec, table: map<nat, nat>, requirements: seq<StorageRequirement>)
    requires IsLowered(p, spec, table, requirements)
    ensures |spec.inputs| == p.inputs && spec.windows == p.windows && |spec.outputs| == |p.outputs|
    ensures forall o | 0 <= o < |p.outputs| ::
              spec.outputs[o].expr == p.outputs[o].expr && spec.outputs[o].isTrigger == p.outputs[o].isTrigger
              && (p.outputs[o].isTrigger ==> spec.outputs[o].bound == Bounded(0))
    ensures forall o | 0 <= o < |p.outputs| && p.outputs[o].clock.Event? ::
              spec.outputs[o].clock == M.EventDriven(p.outputs[o].clock.ac)
    ensures forall o | 0 <= o < |p.outputs| && p.outputs[o].clock.RealTime? :: spec.outputs[o].clock == M.Periodic
    ensures forall w: nat :: w in spec.linked <==>
              exists o :: 0 <= o < |p.outputs| && !p.outputs[o].isTrigger && E.Window(w) in E.Reads(p.outputs[o].expr)
  {
    forall o | 0 <= o < |p.outputs| ensures spec.outputs[o] == LowerOutput(p, requirements, o) {
    }
    forall w: nat
      ensures w in spec.linked <==>
                exists o :: 0 <= o < |p.outputs| && !p.outputs[o].isTrigger && E.Window(w) in E.Reads(p.outputs[o].expr)
    {
      LinkedMembers(p, |p.outputs|, w);
    }
  }

  /** In an event an output is evaluated exactly if it has an event clock whose condition holds of the given inputs. */
  lemma SameActivity(p: Program, spec: M.Spec, table: map<nat, nat>, requirements: seq<StorageRequirement>, o: nat,
                     ins: set<nat>)
    requires Checked(p) && IsLowered(p, spec, table, requirements)
    ensures o in Flatten(spec.layers) && Histories.IsActive(spec, o, ins)
            <==> o < |p.outputs| && p.outputs[o].clock.Event? && Holds(p.outputs[o].clock.ac, LiveInputs(ins))
  {
    if o < |p.outputs| {
      assert spec.outputs[o] == LowerOutput(p, requirements, o);
      assert ClockInferred(p.outputs[o].clock);
      assert IsEventDriven(p, o) <==> p.outputs[o].clock.Event?;
    }
  }

  // ---------- buffers ----------

  /** Every edge comes from an expression, so no access makes all inputs unbounded. */
  lemma NoneUnlimited(p: Program, future: set<nat>)
    ensures !StoreAllInputs(DependencyGraph(p).edges, future)
  {
    var edges := DependencyGraph(p).edges;
    forall i | 0 <= i < |edges| ensures !NeedsAllInputs(edges[i], future) {
      GraphExact(p, edges[i]);
      var o :| 0 <= o < |p.outputs|
               && Has(Pruning.Prune(p.outputs[o].expr), AccessOf(NamesOf(p), p.inputs + o, edges[i]));
      var part := SomePart(Pruning.Prune(p.outputs[o].expr), AccessOf(NamesOf(p), p.inputs + o, edges[i]));
    }
  }

  /** An edge with a negative offset is a past lookup that is not projected away. */
  lemma PastEdge(p: Program, d: D.Dep, x: E.StreamRef, k: nat) returns (o: nat)
    requires Checked(p) && Known(p, x) && d in DependencyGraph(p).edges && k > 0
    requires d.dst == Node(NamesOf(p), x) && d.weight.Access? && d.weight.offset == D.Discrete(-(k as int))
    ensures o < |p.outputs| && E.Past(x, k) in D.KeptReads(p.outputs[o].expr)
  {
    GraphExact(p, d);
    o :| 0 <= o < |p.outputs| && Has(Pruning.Prune(p.outputs[o].expr), AccessOf(NamesOf(p), p.inputs + o, d));
    var e := Pruning.Prune(p.outputs[o].expr);
    var part := SomePart(e, AccessOf(NamesOf(p), p.inputs + o, d));
    assert part == E.OffsetLookup(part.target, E.PastDiscreteOffset(k));
    var a := E.Past(part.target, k);
    HasMore(e, Exactly(part), AccessTo(a));
    ReadsExact(e, a);
    Pruning.PrunedReads(p.outputs[o].expr);
    D.KeptReadsAreReads(p.outputs[o].expr);
    assert KnownAccess(p, a);
  }

  /** The least limit that holds the current value and every past value that is looked up. */
  ghost predicate LeastLimit(p: Program, x: E.StreamRef, limit: nat) {
    && limit >= 1
    && (forall o, k: nat | 0 <= o < |p.outputs| && E.Past(x, k) in D.KeptReads(p.outputs[o].expr) :: k + 1 <= limit)
    && (limit == 1 || exists o :: 0 <= o < |p.outputs| && E.Past(x, limit - 1) in D.KeptReads(p.outputs[o].expr))
  }

  lemma RequiredIsLeast(p: Program, future: set<nat>, inputs: set<nat>, requirements: seq<StorageRequirement>,
                        x: E.StreamRef)
    requires Checked(p) && SizesRequired(p, future, inputs, requirements) && Known(p, x)
    ensures Node(NamesOf(p), x) < |requirements|
    ensures !requirements[Node(NamesOf(p), x)].Unlimited?
            && LeastLimit(p, x, requirements[Node(NamesOf(p), x)].size)
  {
    var n, edges := Node(NamesOf(p), x), DependencyGraph(p).edges;
    NoneUnlimited(p, future);
    assert Required(edges, future, inputs, n, requirements[n]);
    var size := requirements[n].size;
    forall o, k: nat | 0 <= o < |p.outputs| && E.Past(x, k) in D.KeptReads(p.outputs[o].expr) ensures k + 1 <= size {
      ReadHasEdge(p, o, E.Past(x, k));
      var d := D.EdgeOfRead(NamesOf(p), E.Past(x, k), p.inputs + o);
      var i :| 0 <= i < |edges| && edges[i] == d;
      assert Needs(edges[i], n, k + 1);
    }
    if size > 1 {
      var i :| 0 <= i < |edges| && Needs(edges[i], n, size);
      var o := PastEdge(p, edges[i], x, size - 1);
    }
  }

  /**
   The buffer of every stream has exactly the limit it needs: room for its current value and for the
   values at the past offsets by which it is accessed, and no more.
   */
  lemma BoundExact(p: Program, spec: M.Spec, table: map<nat, nat>, requirements: seq<StorageRequirement>,
                   x: E.StreamRef)
    requires Checked(p) && IsLowered(p, spec, table, requirements) && Known(p, x)
    ensures M.Stored(spec, x) && M.BoundOf(spec, x).Bounded? && LeastLimit(p, x, M.BoundOf(spec, x).limit)
  {
    var future, inputs :| SizesRequired(p, future, inputs, requirements);
    BoundOfStream(p, requirements, spec.layers, x);
    RequiredIsLeast(p, future, inputs, requirements, x);
  }
}
