/** From a type-checked program to the specification that the evaluator runs: bounds, layers and clocks. */
module Lowering {
  import opened Sequences
  import opened Graphs
  import opened Stores
  import opened Clocks
  import opened Activations
  import opened Layering
  import opened ComputeGraphs
  import opened LayerTables
  import opened BufferSizes
  import Schedules
  import D = Dependencies
  import E = Expressions
  import M = Evaluator
  import OneStep
  import Histories
  import Pruning

  datatype Output = Output(expr: E.Expr, clock: StreamTy<E.StreamRef>, isTrigger: bool)

  datatype Program = Program(inputs: nat, outputs: seq<Output>, windows: seq<M.SlidingWindow>)

  function NamesOf(p: Program): D.Naming {
    D.Naming(p.inputs, seq(|p.windows|, w requires 0 <= w < |p.windows| => p.windows[w].target))
  }

  function OwnEdges(p: Program, o: nat): seq<D.Dep>
    requires o < |p.outputs|
  {
    D.EdgesOf(NamesOf(p), p.outputs[o].expr, p.inputs + o)
  }

  /** The edges of the first `n` outputs. */
  function EdgesUpTo(p: Program, n: nat): seq<D.Dep>
    requires n <= |p.outputs|
  {
    if n == 0 then [] else EdgesUpTo(p, n - 1) + OwnEdges(p, n - 1)
  }

  function DependencyGraph(p: Program): Graph<D.Dependency> {
    Graph(p.inputs + |p.outputs|, EdgesUpTo(p, |p.outputs|))
  }

  /** The stream can be accessed: it is an input or an output that is no trigger. */
  predicate Known(p: Program, x: E.StreamRef) {
    match x
    case InRef(i) => i < p.inputs
    case OutRef(o) => o < |p.outputs| && !p.outputs[o].isTrigger
  }

  predicate KnownAccess(p: Program, a: E.Access) {
    match a
    case Now(x) => Known(p, x)
    case Past(x, k) => Known(p, x) && 1 <= k < 0x8000
    case Window(w) => w < |p.windows|
  }

  /**
   What naming and type analysis guarantee: accesses resolve, offsets are 16-bit numbers, every
   clock is inferred, windows are read only by periodic outputs, and their deques report aggregates.
   */
  ghost predicate Checked(p: Program) {
    && (forall o, a | 0 <= o < |p.outputs| && a in E.Reads(p.outputs[o].expr) ::
          KnownAccess(p, a) && (a.Window? ==> p.outputs[o].clock.RealTime?))
    && (forall w | 0 <= w < |p.windows| :: Known(p, p.windows[w].target) && M.Faithful(p.windows[w]))
    && ValidGraph(DependencyGraph(p)) && OffsetsInRange(DependencyGraph(p).edges)
    && ClocksInferred(p)
  }

  ghost predicate ClocksInferred(p: Program) {
    forall o | 0 <= o < |p.outputs| :: ClockInferred(p.outputs[o].clock)
  }

  predicate ClockInferred(clock: StreamTy<E.StreamRef>) {
    match clock
    case Event(ac) => Runnable(ac)
    case RealTime(freq) => Positive(freq)
    case Infer => false
  }

  /** No read is lost in a projection out of a tuple literal. */
  ghost predicate NothingProjectedAway(p: Program) {
    forall o | 0 <= o < |p.outputs| :: D.KeptReads(p.outputs[o].expr) == E.Reads(p.outputs[o].expr)
  }

  lemma EdgesUpToNext(p: Program, n: nat, d: D.Dep)
    requires 0 < n <= |p.outputs|
    ensures d in EdgesUpTo(p, n) <==> d in EdgesUpTo(p, n - 1) || d in OwnEdges(p, n - 1)
  {
    assert EdgesUpTo(p, n) == EdgesUpTo(p, n - 1) + OwnEdges(p, n - 1);
  }

  lemma {:induction false} EdgesOfOutput(p: Program, n: nat, o: nat, d: D.Dep)
    requires o < n <= |p.outputs| && d in OwnEdges(p, o)
    ensures d in EdgesUpTo(p, n)
  {
    EdgesUpToNext(p, n, d);
    if o < n - 1 {
      EdgesOfOutput(p, n - 1, o, d);
    }
  }

  lemma {:induction false} EdgesAreAccesses(p: Program, n: nat)
    requires n <= |p.outputs|
    ensures WithoutTemplates(EdgesUpTo(p, n))
  {
    if n > 0 {
      EdgesAreAccesses(p, n - 1);
      D.EdgesLeaveNode(NamesOf(p), p.outputs[n - 1].expr, p.inputs + (n - 1));
    }
  }

  /** Every read of an output that is not projected away has its edge in the graph. */
  lemma ReadHasEdge(p: Program, o: nat, a: E.Access)
    requires Checked(p) && o < |p.outputs| && a in D.KeptReads(p.outputs[o].expr)
    ensures KnownAccess(p, a)
    ensures D.WindowKnown(NamesOf(p), a) && D.EdgeOfRead(NamesOf(p), a, p.inputs + o) in DependencyGraph(p).edges
  {
    D.KeptReadsAreReads(p.outputs[o].expr);
    assert KnownAccess(p, a);
    D.KeptReadsHaveEdges(NamesOf(p), p.outputs[o].expr, p.inputs + o);
    EdgesOfOutput(p, |p.outputs|, o, D.EdgeOfRead(NamesOf(p), a, p.inputs + o));
  }

  // ---------- the two computation graphs ----------

  predicate IsEventNode(p: Program, n: nat) {
    n < p.inputs || (n < p.inputs + |p.outputs| && !p.outputs[n - p.inputs].clock.RealTime?)
  }

  predicate IsPeriodicNode(p: Program, n: nat) {
    p.inputs <= n < p.inputs + |p.outputs| && !p.outputs[n - p.inputs].clock.Event?
  }

  function Retained(p: Program, event: bool, n: nat): seq<nat> {
    if n == 0 then [] else
    Retained(p, event, n - 1) + (if (if event then IsEventNode(p, n - 1) else IsPeriodicNode(p, n - 1)) then [n - 1]
                                 else [])
  }

  function RetainedEdges(deps: seq<D.Dep>, streams: seq<nat>): seq<D.Dep> {
    if deps == [] then [] else
    var last := deps[|deps| - 1];
    RetainedEdges(deps[..|deps| - 1], streams) + (if last.src in streams && last.dst in streams then [last] else [])
  }

  lemma {:induction false} RetainedMembers(p: Program, event: bool, n: nat)
    ensures NoDuplicates(Retained(p, event, n))
    ensures forall m: nat :: m in Retained(p, event, n) <==>
              m < n && if event then IsEventNode(p, m) else IsPeriodicNode(p, m)
  {
    if n > 0 {
      RetainedMembers(p, event, n - 1);
    }
  }

  lemma {:induction false} RetainedEdgesMembers(deps: seq<D.Dep>, streams: seq<nat>, d: D.Dep)
    ensures d in RetainedEdges(deps, streams) <==> d in deps && d.src in streams && d.dst in streams
  {
    if deps != [] {
      RetainedEdgesMembers(deps[..|deps| - 1], streams, d);
      assert deps == deps[..|deps| - 1] + [deps[|deps| - 1]];
    }
  }

  lemma RetainedAmong(deps: seq<D.Dep>, streams: seq<nat>)
    ensures Among(RetainedEdges(deps, streams), streams)
    ensures WithoutTemplates(deps) ==> WithoutTemplates(RetainedEdges(deps, streams))
  {
    var kept := RetainedEdges(deps, streams);
    forall i | 0 <= i < |kept| ensures kept[i] in deps && kept[i].src in streams && kept[i].dst in streams {
      RetainedEdgesMembers(deps, streams, kept[i]);
    }
  }

  lemma RetainedLink(deps: seq<D.Dep>, streams: seq<nat>, s: nat, t: nat)
    ensures (s, t) in D.SameInstantLinks(RetainedEdges(deps, streams)) <==>
            (s, t) in D.SameInstantLinks(deps) && s in streams && t in streams
  {
    var kept := RetainedEdges(deps, streams);
    if (s, t) in D.SameInstantLinks(kept) {
      var i :| 0 <= i < |kept| && D.SameInstant(kept[i]) && (s, t) == (kept[i].src, kept[i].dst);
      RetainedEdgesMembers(deps, streams, kept[i]);
      LinkOf(deps, kept[i]);
    }
    if (s, t) in D.SameInstantLinks(deps) && s in streams && t in streams {
      var i :| 0 <= i < |deps| && D.SameInstant(deps[i]) && (s, t) == (deps[i].src, deps[i].dst);
      RetainedEdgesMembers(deps, streams, deps[i]);
      LinkOf(kept, deps[i]);
    }
  }

  lemma RetainedAcyclic(deps: seq<D.Dep>, streams: seq<nat>)
    requires Acyclic(D.SameInstantLinks(deps))
    ensures Acyclic(D.SameInstantLinks(RetainedEdges(deps, streams)))
  {
    var part, whole := D.SameInstantLinks(RetainedEdges(deps, streams)), D.SameInstantLinks(deps);
    forall l | l in part ensures l in whole {
      RetainedLink(deps, streams, l.0, l.1);
    }
    AcyclicPart(part, whole);
  }

  lemma LinkOf(deps: seq<D.Dep>, d: D.Dep)
    requires d in deps && D.SameInstant(d)
    ensures (d.src, d.dst) in D.SameInstantLinks(deps)
  {
    var i :| 0 <= i < |deps| && deps[i] == d;
  }

  /** The streams of one kind with the edges between them form an acyclic graph if the whole graph does. */
  lemma KindAcyclic(p: Program, event: bool)
    requires Acyclic(D.SameInstantLinks(DependencyGraph(p).edges))
    ensures var streams := Retained(p, event, p.inputs + |p.outputs|);
            var kept := RetainedEdges(DependencyGraph(p).edges, streams);
            NoDuplicates(streams) && Among(kept, streams) && WithoutTemplates(kept) && Acyclic(D.SameInstantLinks(kept))
  {
    var deps := DependencyGraph(p).edges;
    var streams := Retained(p, event, p.inputs + |p.outputs|);
    RetainedMembers(p, event, p.inputs + |p.outputs|);
    EdgesAreAccesses(p, |p.outputs|);
    RetainedAmong(deps, streams);
    RetainedAcyclic(deps, streams);
  }

  /** The order of the streams of one kind. */
  method OrderOfKind(p: Program, event: bool) returns (order: seq<seq<ComputeStep>>)
    requires Acyclic(D.SameInstantLinks(DependencyGraph(p).edges))
    ensures KindOrdered(p, event, order)
  {
    var streams := Retained(p, event, p.inputs + |p.outputs|);
    KindAcyclic(p, event);
    order := DetermineOrder(streams, RetainedEdges(DependencyGraph(p).edges, streams));
  }

  ghost predicate KindOrdered(p: Program, event: bool, order: seq<seq<ComputeStep>>) {
    var streams := Retained(p, event, p.inputs + |p.outputs|);
    OrderOf(order, streams, RetainedEdges(DependencyGraph(p).edges, streams))
  }

  ghost predicate OfKind(p: Program, event: bool, n: nat) {
    n < p.inputs + |p.outputs| && if event then IsEventNode(p, n) else IsPeriodicNode(p, n)
  }

  /** What the steps of the streams of one kind need of each other. */
  ghost function NeedsOfKind(p: Program, event: bool): set<(ComputeStep, ComputeStep)> {
    var streams := Retained(p, event, p.inputs + |p.outputs|);
    AllNeeds(streams, RetainedEdges(DependencyGraph(p).edges, streams))
  }

  /** The table holds the length of the longest dependency path from every stream's evaluation. */
  ghost predicate LayersExact(p: Program, table: map<nat, nat>) {
    forall event, n | OfKind(p, event, n) :: n in table && LongestPath(NeedsOfKind(p, event), Evaluate(n), table[n])
  }

  /** Same-instant accesses between streams of one kind go to an earlier layer of the table. */
  ghost predicate LayersRespectReads(p: Program, table: map<nat, nat>) {
    && (forall n: nat | n < p.inputs + |p.outputs| :: n in table)
    && forall event, reader, target |
         OfKind(p, event, reader) && OfKind(p, event, target)
             && (reader, target) in D.SameInstantLinks(DependencyGraph(p).edges) ::
         table[target] < table[reader]
  }

  lemma RetainedIff(p: Program, event: bool, n: nat)
    ensures n in Retained(p, event, p.inputs + |p.outputs|) <==> OfKind(p, event, n)
  {
    RetainedMembers(p, event, p.inputs + |p.outputs|);
  }

  lemma TableOfKind(p: Program, event: bool, order: seq<seq<ComputeStep>>, n: nat)
    requires KindOrdered(p, event, order)
    ensures n in TableOf(order) <==> OfKind(p, event, n)
    ensures n in TableOf(order) ==> LongestPath(NeedsOfKind(p, event), Evaluate(n), TableOf(order)[n])
  {
    var streams := Retained(p, event, p.inputs + |p.outputs|);
    TableKeys(order, streams, RetainedEdges(DependencyGraph(p).edges, streams), n);
    RetainedIff(p, event, n);
    if n in streams {
      TableHoldsEvaluation(order, streams, RetainedEdges(DependencyGraph(p).edges, streams), n);
    }
  }

  lemma ReadsComeEarlier(p: Program, event: bool, order: seq<seq<ComputeStep>>, reader: nat, target: nat)
    requires KindOrdered(p, event, order) && OfKind(p, event, reader) && OfKind(p, event, target)
    requires (reader, target) in D.SameInstantLinks(DependencyGraph(p).edges)
    ensures reader in TableOf(order) && target in TableOf(order) && TableOf(order)[target] < TableOf(order)[reader]
  {
    var streams := Retained(p, event, p.inputs + |p.outputs|);
    var deps := DependencyGraph(p).edges;
    RetainedMembers(p, event, p.inputs + |p.outputs|);
    RetainedLink(deps, streams, reader, target);
    ReadersComeLater(order, streams, RetainedEdges(deps, streams), reader, target);
  }

  lemma OneKind(p: Program, n: nat)
    requires ClocksInferred(p) && n < p.inputs + |p.outputs|
    ensures OfKind(p, false, n) <==> !OfKind(p, true, n)
  {
    if n >= p.inputs {
      assert ClockInferred(p.outputs[n - p.inputs].clock);
    }
  }

  /** With all clocks inferred, no stream is of both kinds, so neither order overrides the other in the table. */
  lemma TableEntries(p: Program, periodic: seq<seq<ComputeStep>>, eventBased: seq<seq<ComputeStep>>, event: bool,
                     n: nat)
    requires ClocksInferred(p) && KindOrdered(p, false, periodic) && KindOrdered(p, true, eventBased)
    requires OfKind(p, event, n)
    ensures var order := if event then eventBased else periodic;
            n in TableOf(order) && n in TableOf(periodic) + TableOf(eventBased)
            && (TableOf(periodic) + TableOf(eventBased))[n] == TableOf(order)[n]
  {
    OneKind(p, n);
    TableOfKind(p, true, eventBased, n);
    TableOfKind(p, false, periodic, n);
  }

  lemma TableRespectsReads(p: Program, periodic: seq<seq<ComputeStep>>, eventBased: seq<seq<ComputeStep>>)
    requires Checked(p) && KindOrdered(p, false, periodic) && KindOrdered(p, true, eventBased)
    ensures LayersRespectReads(p, TableOf(periodic) + TableOf(eventBased))
  {
    var table := TableOf(periodic) + TableOf(eventBased);
    forall n: nat | n < p.inputs + |p.outputs| ensures n in table {
      OneKind(p, n);
      TableEntries(p, periodic, eventBased, OfKind(p, true, n), n);
    }
    forall event, reader, target |
      OfKind(p, event, reader) && OfKind(p, event, target)
          && (reader, target) in D.SameInstantLinks(DependencyGraph(p).edges)
      ensures table[target] < table[reader]
    {
      TableEntries(p, periodic, eventBased, event, reader);
      TableEntries(p, periodic, eventBased, event, target);
      ReadsComeEarlier(p, event, if event then eventBased else periodic, reader, target);
    }
  }

  lemma TableIsExact(p: Program, periodic: seq<seq<ComputeStep>>, eventBased: seq<seq<ComputeStep>>)
    requires Checked(p) && KindOrdered(p, false, periodic) && KindOrdered(p, true, eventBased)
    ensures LayersExact(p, TableOf(periodic) + TableOf(eventBased))
  {
    var table := TableOf(periodic) + TableOf(eventBased);
    forall event, n | OfKind(p, event, n)
      ensures n in table && LongestPath(NeedsOfKind(p, event), Evaluate(n), table[n])
    {
      TableEntries(p, periodic, eventBased, event, n);
      TableOfKind(p, event, if event then eventBased else periodic, n);
    }
  }

  // ---------- the lowered specification ----------

  function LowerClock(clock: StreamTy<E.StreamRef>): M.Clock {
    if clock.Event? then M.EventDriven(clock.ac) else M.Periodic
  }

  /** Triggers keep no values. */
  function LowerOutput(p: Program, requirements: seq<StorageRequirement>, o: nat): M.OutputStream
    requires |requirements| == p.inputs + |p.outputs| && o < |p.outputs|
  {
    var output := p.outputs[o];
    M.OutputStream(output.expr, LowerClock(output.clock),
                   if output.isTrigger then Bounded(0) else LowerStorageReq(requirements[p.inputs + o]),
                   output.isTrigger)
  }

  /** The windows that the outputs among the first `n` read, triggers excepted. */
  function LinkedUpTo(p: Program, n: nat): set<nat>
    requires n <= |p.outputs|
  {
    if n == 0 then {}
    else LinkedUpTo(p, n - 1) + (if p.outputs[n - 1].isTrigger then {} else WindowsIn(p.outputs[n - 1].expr))
  }

  function WindowsIn(e: E.Expr): set<nat> {
    set a | a in E.Reads(e) && a.Window? :: a.w
  }

  /** Windows are linked to their targets before triggers are lowered: only those that an output reads. */
  function LinkedWindows(p: Program): set<nat> {
    LinkedUpTo(p, |p.outputs|)
  }

  lemma {:induction false} LinkedMembers(p: Program, n: nat, w: nat)
    requires n <= |p.outputs|
    ensures w in LinkedUpTo(p, n) <==>
              exists o :: 0 <= o < n && !p.outputs[o].isTrigger && E.Window(w) in E.Reads(p.outputs[o].expr)
  {
    if n > 0 {
      LinkedMembers(p, n - 1, w);
    }
  }

  /** Lowers the expressions of the outputs, and links the windows found so far. */
  method LinkWindows(p: Program) returns (linked: set<nat>)
    ensures linked == LinkedWindows(p)
    ensures forall w: nat :: w in linked <==>
              exists o :: 0 <= o < |p.outputs| && !p.outputs[o].isTrigger && E.Window(w) in E.Reads(p.outputs[o].expr)
  {
    linked := {};
    for o := 0 to |p.outputs|
      invariant linked == LinkedUpTo(p, o)
    {
      if !p.outputs[o].isTrigger {
        linked := linked + WindowsIn(p.outputs[o].expr);
      }
    }
    forall w: nat
      ensures w in linked <==>
                exists o :: 0 <= o < |p.outputs| && !p.outputs[o].isTrigger && E.Window(w) in E.Reads(p.outputs[o].expr)
    {
      LinkedMembers(p, |p.outputs|, w);
    }
  }

  /** The condition under which every window is linked that is read: no trigger reads one. */
  ghost predicate TriggersReadNoWindow(p: Program) {
    forall o, a | 0 <= o < |p.outputs| && p.outputs[o].isTrigger && a in E.Reads(p.outputs[o].expr) :: !a.Window?
  }

  lemma WindowsLinked(p: Program, requirements: seq<StorageRequirement>, layers: seq<seq<nat>>)
    requires TriggersReadNoWindow(p) && |requirements| == p.inputs + |p.outputs|
    ensures Histories.ReadsLinked(SpecOf(p, requirements, layers))
  {
    var spec := SpecOf(p, requirements, layers);
    forall o, a | 0 <= o < |spec.outputs| && a in E.Reads(spec.outputs[o].expr) && a.Window?
      ensures a.w in spec.linked {
      assert spec.outputs[o].expr == p.outputs[o].expr;
      LinkedMembers(p, |p.outputs|, a.w);
    }
  }

  function SpecOf(p: Program, requirements: seq<StorageRequirement>, layers: seq<seq<nat>>): M.Spec
    requires |requirements| == p.inputs + |p.outputs|
  {
    M.Spec(
      seq(p.inputs, i requires 0 <= i < p.inputs => LowerStorageReq(requirements[i])),
      seq(|p.outputs|, o requires 0 <= o < |p.outputs| => LowerOutput(p, requirements, o)),
      p.windows, layers, LinkedWindows(p))
  }

  ghost predicate SizesRequired(p: Program, future: set<nat>, inputs: set<nat>, requirements: seq<StorageRequirement>) {
    && |requirements| == p.inputs + |p.outputs|
    && forall n | 0 <= n < |requirements| :: Required(DependencyGraph(p).edges, future, inputs, n, requirements[n])
  }

  lemma BoundOfStream(p: Program, requirements: seq<StorageRequirement>, layers: seq<seq<nat>>, x: E.StreamRef)
    requires |requirements| == p.inputs + |p.outputs|
    ensures var spec := SpecOf(p, requirements, layers);
            M.Stored(spec, x) <==> Known(p, x)
    ensures Known(p, x) ==> D.NodeOf(NamesOf(p), x) < |requirements|
    ensures Known(p, x) ==>
              M.BoundOf(SpecOf(p, requirements, layers), x) == LowerStorageReq(requirements[D.NodeOf(NamesOf(p), x)])
  {
  }

  // ---------- reads that are projected away ----------

  /** The read observes the current value of output `t`. */
  predicate ReadsNow(windows: seq<M.SlidingWindow>, o: nat, a: E.Access, t: nat) {
    match a
    case Now(x) => x == E.OutRef(t)
    case Past(_, _) => false
    case Window(w) => w < |windows| && windows[w].target == E.OutRef(t) && t != o
  }

  lemma SameInstantReads(spec: M.Spec, o: nat, t: nat)
    requires o < |spec.outputs|
    ensures t in OneStep.SameInstant(spec, o) <==>
            exists a :: a in E.Reads(spec.outputs[o].expr) && ReadsNow(spec.windows, o, a, t)
  {
    if t in OneStep.SameInstant(spec, o) {
      if a :| a in E.Reads(spec.outputs[o].expr) && a.Now? && a.x == E.OutRef(t) {
        assert ReadsNow(spec.windows, o, a, t);
      } else {
        var a :| a in E.Reads(spec.outputs[o].expr) && a.Window? && a.w < |spec.windows|
                 && spec.windows[a.w].target == E.OutRef(t) && t != o;
        assert ReadsNow(spec.windows, o, a, t);
      }
    }
  }

  /** The layer of an output; every output has one. */
  function LayerOf(p: Program, table: map<nat, nat>): nat -> nat {
    o => if p.inputs + o in table then table[p.inputs + o] else 0
  }

  lemma LayerInTable(p: Program, table: map<nat, nat>, o: nat)
    requires p.inputs + o in table
    ensures LayerOf(p, table)(o) == table[p.inputs + o]
  {
  }

  ghost predicate BothOfKind(p: Program, event: bool, o: nat, t: nat) {
    OfKind(p, event, p.inputs + o) && OfKind(p, event, p.inputs + t)
  }

  /** The outputs are of one kind, so one order is to evaluate both. */
  ghost predicate SameKind(p: Program, o: nat, t: nat) {
    BothOfKind(p, true, o, t) || BothOfKind(p, false, o, t)
  }

  /** Without an edge for the read, its target is still buffered long enough and in an earlier layer. */
  ghost predicate Harmless(p: Program, spec: M.Spec, table: map<nat, nat>, o: nat, a: E.Access) {
    && OneStep.Served(spec, a)
    && forall t: nat | ReadsNow(p.windows, o, a, t) && SameKind(p, o, t) :: LayerOf(p, table)(t) < LayerOf(p, table)(o)
  }

  /** All reads that are projected out of a tuple literal, and so have no edge, are harmless. */
  ghost predicate DropsHarmless(p: Program, spec: M.Spec, table: map<nat, nat>) {
    forall o, a | 0 <= o < |p.outputs| && a in E.Reads(p.outputs[o].expr) && a !in D.KeptReads(p.outputs[o].expr) ::
      Harmless(p, spec, table, o, a)
  }

  lemma NothingDropped(p: Program, spec: M.Spec, table: map<nat, nat>)
    requires NothingProjectedAway(p)
    ensures DropsHarmless(p, spec, table)
  {
  }

  // ---------- served reads ----------

  lemma StreamHasRoom(p: Program, future: set<nat>, inputs: set<nat>, requirements: seq<StorageRequirement>,
                      layers: seq<seq<nat>>, x: E.StreamRef)
    requires Known(p, x) && SizesRequired(p, future, inputs, requirements)
    ensures var spec := SpecOf(p, requirements, layers);
            M.Stored(spec, x) && HasRoom(M.BoundOf(spec, x), 1)
  {
    BoundOfStream(p, requirements, layers, x);
    var n := D.NodeOf(NamesOf(p), x);
    assert Required(DependencyGraph(p).edges, future, inputs, n, requirements[n]);
  }

  /** Projecting away the current value of an input never does harm. */
  lemma InputReadHarmless(p: Program, future: set<nat>, inputs: set<nat>, requirements: seq<StorageRequirement>,
                          layers: seq<seq<nat>>, table: map<nat, nat>, o: nat, i: nat)
    requires i < p.inputs && SizesRequired(p, future, inputs, requirements)
    ensures Harmless(p, SpecOf(p, requirements, layers), table, o, E.Now(E.InRef(i)))
  {
    StreamHasRoom(p, future, inputs, requirements, layers, E.InRef(i));
  }

  /** Only current values of inputs are projected away. */
  ghost predicate DropsInputsOnly(p: Program) {
    forall o, a | 0 <= o < |p.outputs| && a in E.Reads(p.outputs[o].expr) && a !in D.KeptReads(p.outputs[o].expr) ::
      a.Now? && a.x.InRef?
  }

  /** A program that projects away only current values of inputs, as in `(i, j).0`, has only harmless projections. */
  lemma DroppedInputsHarmless(p: Program, future: set<nat>, inputs: set<nat>, requirements: seq<StorageRequirement>,
                              layers: seq<seq<nat>>, table: map<nat, nat>)
    requires Checked(p) && SizesRequired(p, future, inputs, requirements) && DropsInputsOnly(p)
    ensures DropsHarmless(p, SpecOf(p, requirements, layers), table)
  {
    forall o, a | 0 <= o < |p.outputs| && a in E.Reads(p.outputs[o].expr) && a !in D.KeptReads(p.outputs[o].expr)
      ensures Harmless(p, SpecOf(p, requirements, layers), table, o, a)
    {
      assert KnownAccess(p, a);
      InputReadHarmless(p, future, inputs, requirements, layers, table, o, a.x.ix);
    }
  }

  /** A read with an edge can be served from the buffers. */
  lemma KeptReadServed(p: Program, future: set<nat>, inputs: set<nat>, requirements: seq<StorageRequirement>,
                       layers: seq<seq<nat>>, o: nat, a: E.Access)
    requires Checked(p) && SizesRequired(p, future, inputs, requirements)
    requires o < |p.outputs| && a in D.KeptReads(p.outputs[o].expr)
    ensures OneStep.Served(SpecOf(p, requirements, layers), a)
  {
    ReadHasEdge(p, o, a);
    if !a.Window? {
      BoundOfStream(p, requirements, layers, a.x);
      var n := D.NodeOf(NamesOf(p), a.x);
      var d := D.EdgeOfRead(NamesOf(p), a, p.inputs + o);
      BoundServes(DependencyGraph(p).edges, future, inputs, n, requirements[n], d, if a.Now? then 1 else a.k + 1);
    }
  }

  /** The computed bounds make the specification well-formed. */
  lemma LoweredWellFormed(p: Program, future: set<nat>, inputs: set<nat>, requirements: seq<StorageRequirement>,
                          layers: seq<seq<nat>>, table: map<nat, nat>)
    requires Checked(p) && SizesRequired(p, future, inputs, requirements)
    requires DropsHarmless(p, SpecOf(p, requirements, layers), table)
    ensures OneStep.WellFormed(SpecOf(p, requirements, layers))
  {
    var spec := SpecOf(p, requirements, layers);
    forall o, a | 0 <= o < |spec.outputs| && a in E.Reads(spec.outputs[o].expr) ensures OneStep.Served(spec, a) {
      if a in D.KeptReads(p.outputs[o].expr) {
        KeptReadServed(p, future, inputs, requirements, layers, o, a);
      } else {
        assert Harmless(p, spec, table, o, a);
      }
    }
    forall x | M.Stored(spec, x) ensures HasRoom(M.BoundOf(spec, x), 1) {
      BoundOfStream(p, requirements, layers, x);
      StreamHasRoom(p, future, inputs, requirements, layers, x);
    }
    forall w | 0 <= w < |spec.windows| ensures M.Stored(spec, spec.windows[w].target) {
      BoundOfStream(p, requirements, layers, spec.windows[w].target);
    }
  }

  // ---------- admissible orders ----------

  /** A current read with an edge is a link of the dependency graph. */
  lemma KeptReadIsLink(p: Program, o: nat, a: E.Access, t: nat)
    requires Checked(p) && o < |p.outputs| && a in D.KeptReads(p.outputs[o].expr) && ReadsNow(p.windows, o, a, t)
    ensures (p.inputs + o, p.inputs + t) in D.SameInstantLinks(DependencyGraph(p).edges)
  {
    ReadHasEdge(p, o, a);
    LinkOf(DependencyGraph(p).edges, D.EdgeOfRead(NamesOf(p), a, p.inputs + o));
  }

  ghost predicate AllOfKind(p: Program, event: bool, order: seq<nat>) {
    forall i | 0 <= i < |order| :: order[i] < |p.outputs| && OfKind(p, event, p.inputs + order[i])
  }

  lemma LinkIsEarlier(p: Program, table: map<nat, nat>, event: bool, o: nat, t: nat)
    requires LayersRespectReads(p, table)
             && (p.inputs + o, p.inputs + t) in D.SameInstantLinks(DependencyGraph(p).edges)
    requires o < |p.outputs| && BothOfKind(p, event, o, t)
    ensures LayerOf(p, table)(t) < LayerOf(p, table)(o)
  {
  }

  lemma ReadIsEarlier(p: Program, requirements: seq<StorageRequirement>, layers: seq<seq<nat>>, table: map<nat, nat>,
                      event: bool, o: nat, t: nat)
    requires Checked(p) && |requirements| == p.inputs + |p.outputs|
    requires LayersRespectReads(p, table) && DropsHarmless(p, SpecOf(p, requirements, layers), table)
    requires o < |p.outputs| && OfKind(p, event, p.inputs + o) && OfKind(p, event, p.inputs + t)
    requires t in OneStep.SameInstant(SpecOf(p, requirements, layers), o)
    ensures LayerOf(p, table)(t) < LayerOf(p, table)(o)
  {
    var spec := SpecOf(p, requirements, layers);
    SameInstantReads(spec, o, t);
    var a :| a in E.Reads(p.outputs[o].expr) && ReadsNow(p.windows, o, a, t);
    if a in D.KeptReads(p.outputs[o].expr) {
      KeptReadIsLink(p, o, a, t);
      LinkIsEarlier(p, table, event, o, t);
    } else {
      assert BothOfKind(p, event, o, t);
      assert Harmless(p, spec, table, o, a);
    }
  }

  /** Outputs of one kind, sorted by their layers, are in an admissible order. */
  lemma SortedIsTopological(p: Program, requirements: seq<StorageRequirement>, layers: seq<seq<nat>>,
                            table: map<nat, nat>,
                            event: bool, order: seq<nat>)
    requires Checked(p) && |requirements| == p.inputs + |p.outputs|
    requires LayersRespectReads(p, table) && DropsHarmless(p, SpecOf(p, requirements, layers), table)
    requires NoDuplicates(order) && AllOfKind(p, event, order) && Schedules.SortedByLayer(order, LayerOf(p, table))
    ensures OneStep.Topological(SpecOf(p, requirements, layers), order)
  {
    var spec := SpecOf(p, requirements, layers);
    forall i, j | 0 <= i <= j < |order| ensures order[j] !in OneStep.SameInstant(spec, order[i]) {
      if order[j] in OneStep.SameInstant(spec, order[i]) {
        ReadIsEarlier(p, requirements, layers, table, event, order[i], order[j]);
      }
    }
  }

  // ---------- without the projected entries ----------

  /** What is left of an output when projections are replaced by their entries is always served. */
  lemma PrunedWellFormed(p: Program, future: set<nat>, inputs: set<nat>, requirements: seq<StorageRequirement>,
                         layers: seq<seq<nat>>)
    requires Checked(p) && SizesRequired(p, future, inputs, requirements)
    ensures OneStep.WellFormed(Pruning.Pruned(SpecOf(p, requirements, layers)))
  {
    var spec := SpecOf(p, requirements, layers);
    var pruned := Pruning.Pruned(spec);
    forall o, a | 0 <= o < |pruned.outputs| && a in E.Reads(pruned.outputs[o].expr) ensures OneStep.Served(pruned, a) {
      Pruning.PrunedReads(p.outputs[o].expr);
      KeptReadServed(p, future, inputs, requirements, layers, o, a);
      SameService(spec, a);
    }
    forall x | M.Stored(pruned, x) ensures HasRoom(M.BoundOf(pruned, x), 1) {
      BoundOfStream(p, requirements, layers, x);
      StreamHasRoom(p, future, inputs, requirements, layers, x);
      SameService(spec, E.Now(x));
    }
    forall w | 0 <= w < |pruned.windows| ensures M.Stored(pruned, pruned.windows[w].target) {
      BoundOfStream(p, requirements, layers, spec.windows[w].target);
    }
  }

  lemma SameService(spec: M.Spec, a: E.Access)
    ensures OneStep.Served(Pruning.Pruned(spec), a) <==> OneStep.Served(spec, a)
    ensures forall x | M.Stored(spec, x) :: M.Stored(Pruning.Pruned(spec), x)
                                            && M.BoundOf(Pruning.Pruned(spec), x) == M.BoundOf(spec, x)
  {
  }

  /** What is left of an output reads only outputs of earlier layers in the same instant. */
  lemma PrunedReadIsEarlier(p: Program, requirements: seq<StorageRequirement>, layers: seq<seq<nat>>,
                            table: map<nat, nat>, event: bool, o: nat, t: nat)
    requires Checked(p) && |requirements| == p.inputs + |p.outputs| && LayersRespectReads(p, table)
    requires o < |p.outputs| && BothOfKind(p, event, o, t)
    requires t in OneStep.SameInstant(Pruning.Pruned(SpecOf(p, requirements, layers)), o)
    ensures LayerOf(p, table)(t) < LayerOf(p, table)(o)
  {
    var pruned := Pruning.Pruned(SpecOf(p, requirements, layers));
    SameInstantReads(pruned, o, t);
    Pruning.PrunedReads(p.outputs[o].expr);
    var a :| a in E.Reads(pruned.outputs[o].expr) && ReadsNow(p.windows, o, a, t);
    KeptReadIsLink(p, o, a, t);
    LinkIsEarlier(p, table, event, o, t);
  }

  /** Without the projected entries, outputs of one kind sorted by their layers are in an admissible order. */
  lemma PrunedSortedIsTopological(p: Program, requirements: seq<StorageRequirement>, layers: seq<seq<nat>>,
                                  table: map<nat, nat>, event: bool, order: seq<nat>)
    requires Checked(p) && |requirements| == p.inputs + |p.outputs| && LayersRespectReads(p, table)
    requires NoDuplicates(order) && AllOfKind(p, event, order) && Schedules.SortedByLayer(order, LayerOf(p, table))
    ensures OneStep.Topological(Pruning.Pruned(SpecOf(p, requirements, layers)), order)
  {
    var pruned := Pruning.Pruned(SpecOf(p, requirements, layers));
    forall i, j | 0 <= i <= j < |order| ensures order[j] !in OneStep.SameInstant(pruned, order[i]) {
      if order[j] in OneStep.SameInstant(pruned, order[i]) {
        PrunedReadIsEarlier(p, requirements, layers, table, event, order[i], order[j]);
      }
    }
  }
}
