/**
 The whole pipeline: analyses, lowering, schedule and offline run, against the declarative semantics
 of the program.
 */
module Pipeline {
  import opened Values
  import opened Sequences
  import opened Graphs
  import opened Clocks
  import opened Rationals
  import opened Numbers
  import opened Lowering
  import opened LayerTables
  import opened BufferSizes
  import opened Schedules
  import opened ScheduleCycles
  import opened Controller
  import D = Dependencies
  import E = Expressions
  import M = Evaluator
  import EventLayers
  import Activations
  import Histories
  import OneStep
  import opened Layering
  import Reachability
  import Pruning
  import ZeroPauses
  import Replays

  // ---------- lowering ----------

  predicate IsEventDriven(p: Program, o: nat) {
    o < |p.outputs| && !p.outputs[o].clock.RealTime?
  }

  /** The event-driven outputs among the first `n`, triggers last as they are lowered last. */
  function EventRefs(p: Program, n: nat): seq<nat>
    requires n <= |p.outputs|
  {
    if n == 0 then [] else EventRefs(p, n - 1) + (if IsEventDriven(p, n - 1) then [n - 1] else [])
  }

  lemma {:induction false} EventRefsMembers(p: Program, n: nat)
    requires n <= |p.outputs|
    ensures NoDuplicates(EventRefs(p, n))
    ensures forall o: nat :: o in EventRefs(p, n) <==> o < n && IsEventDriven(p, o)
  {
    if n > 0 {
      EventRefsMembers(p, n - 1);
    }
  }

  /** What lowering produces: bounds from the buffer analysis, and layers that respect the table of layers. */
  ghost predicate IsLowered(p: Program, spec: M.Spec, table: map<nat, nat>, requirements: seq<StorageRequirement>) {
    && |requirements| == p.inputs + |p.outputs|
    && (exists future, inputs :: SizesRequired(p, future, inputs, requirements))
    && LayersRespectReads(p, table) && LayersExact(p, table)
    && spec == SpecOf(p, requirements, spec.layers)
    && EventLayersOf(p, table, Flatten(spec.layers))
  }

  /** All event-driven outputs, once each, in the order of their layers. */
  ghost predicate EventLayersOf(p: Program, table: map<nat, nat>, order: seq<nat>) {
    && NoDuplicates(order) && SortedByLayer(order, LayerOf(p, table))
    && (forall o: nat :: o in order <==> IsEventDriven(p, o))
    && exists n :: EventLayers.AllLayers(EventRefs(p, |p.outputs|), LayerOf(p, table), order, n)
  }

  /** The table of layers, from the two evaluation orders. */
  method DetermineLayers(p: Program) returns (table: map<nat, nat>)
    requires Checked(p) && Acyclic(D.SameInstantLinks(DependencyGraph(p).edges))
    ensures LayersRespectReads(p, table) && LayersExact(p, table)
  {
    var periodic := OrderOfKind(p, false);
    var eventBased := OrderOfKind(p, true);
    table := OrderToTable(periodic, eventBased);
    TableRespectsReads(p, periodic, eventBased);
    TableIsExact(p, periodic, eventBased);
  }

  /** The storage requirements, from the future-dependent streams. */
  method DetermineSizes(p: Program) returns (sizes: seq<StorageRequirement>)
    requires Checked(p)
    ensures |sizes| == p.inputs + |p.outputs| && exists future, inputs :: SizesRequired(p, future, inputs, sizes)
  {
    var g := DependencyGraph(p);
    var future := Reachability.FutureDependentStreams(g);
    var inputs := Reachability.Below(p.inputs);
    sizes := DetermineBufferSize(g, future, inputs);
    assert SizesRequired(p, future, inputs, sizes);
  }

  /** The layers of the event-driven outputs. */
  method EventDrivenLayers(p: Program, table: map<nat, nat>) returns (layers: seq<seq<nat>>)
    ensures EventLayersOf(p, table, Flatten(layers))
  {
    layers := EventLayers.GetEventDrivenLayers(EventRefs(p, |p.outputs|), LayerOf(p, table));
    ghost var n: nat :| EventLayers.Layered(EventRefs(p, |p.outputs|), LayerOf(p, table), layers, n);
    EventRefsMembers(p, |p.outputs|);
    EventLayers.AllLayersMeaning(EventRefs(p, |p.outputs|), LayerOf(p, table), Flatten(layers), n);
  }

  method Lower(p: Program) returns (spec: M.Spec, table: map<nat, nat>, requirements: seq<StorageRequirement>)
    requires Checked(p) && Acyclic(D.SameInstantLinks(DependencyGraph(p).edges))
    ensures IsLowered(p, spec, table, requirements)
  {
    table := DetermineLayers(p);
    requirements := DetermineSizes(p);
    var layers := EventDrivenLayers(p, table);
    var linked := LinkWindows(p);
    spec := SpecOf(p, requirements, layers).(linked := linked);
  }

  lemma LayerExact(p: Program, spec: M.Spec, table: map<nat, nat>, requirements: seq<StorageRequirement>, event: bool,
                   n: nat)
    requires IsLowered(p, spec, table, requirements) && OfKind(p, event, n)
    ensures n in table && LongestPath(NeedsOfKind(p, event), Evaluate(n), table[n])
  {
  }

  /** The lowered specification meets the conditions under which the evaluator refines the declarative semantics. */
  lemma LoweredIsWellFormed(p: Program, spec: M.Spec, table: map<nat, nat>, requirements: seq<StorageRequirement>)
    requires Checked(p) && DropsHarmless(p, spec, table) && IsLowered(p, spec, table, requirements)
    ensures OneStep.WellFormed(spec) && OneStep.Topological(spec, Flatten(spec.layers))
  {
    var future, inputs :| SizesRequired(p, future, inputs, requirements);
    LoweredWellFormed(p, future, inputs, requirements, spec.layers, table);
    var order := Flatten(spec.layers);
    forall i | 0 <= i < |order| ensures order[i] < |p.outputs| && OfKind(p, true, p.inputs + order[i]) {
      assert order[i] in order;
    }
    SortedIsTopological(p, requirements, spec.layers, table, true, order);
  }

  /** Programs that project away only current values of inputs are among them. */
  lemma DroppedInputs(p: Program, spec: M.Spec, table: map<nat, nat>, requirements: seq<StorageRequirement>)
    requires Checked(p) && IsLowered(p, spec, table, requirements) && DropsInputsOnly(p)
    ensures DropsHarmless(p, spec, table)
  {
    var future, inputs :| SizesRequired(p, future, inputs, requirements);
    DroppedInputsHarmless(p, future, inputs, requirements, spec.layers, table);
  }

  // ---------- admissible specifications ----------

  /** However outputs of one kind are ordered by their layers, the order is admissible. */
  ghost predicate LayersAdmissible(p: Program, s: M.Spec, table: map<nat, nat>) {
    forall event, order: seq<nat> | NoDuplicates(order) && AllOfKind(p, event, order)
                                    && SortedByLayer(order, LayerOf(p, table)) ::
      OneStep.Topological(s, order)
  }

  /** The specification has the program's clocks and layers, and meets the conditions of the refinement. */
  ghost predicate Admissible(p: Program, s: M.Spec, table: map<nat, nat>) {
    && OneStep.WellFormed(s) && LayersAdmissible(p, s, table) && |s.outputs| == |p.outputs|
    && (forall o | 0 <= o < |p.outputs| :: s.outputs[o].clock == LowerClock(p.outputs[o].clock))
    && EventLayersOf(p, table, Flatten(s.layers))
  }

  /** Replacing projections by their entries makes every lowered specification admissible. */
  lemma PrunedIsAdmissible(p: Program, spec: M.Spec, table: map<nat, nat>, requirements: seq<StorageRequirement>)
    requires Checked(p) && IsLowered(p, spec, table, requirements)
    ensures Admissible(p, Pruning.Pruned(spec), table)
  {
    var future, inputs :| SizesRequired(p, future, inputs, requirements);
    PrunedWellFormed(p, future, inputs, requirements, spec.layers);
    forall event, order: seq<nat> | NoDuplicates(order) && AllOfKind(p, event, order)
                                    && SortedByLayer(order, LayerOf(p, table))
      ensures OneStep.Topological(Pruning.Pruned(spec), order)
    {
      PrunedSortedIsTopological(p, requirements, spec.layers, table, event, order);
    }
    forall o | 0 <= o < |p.outputs| ensures spec.outputs[o] == LowerOutput(p, requirements, o) {
    }
  }

  /** If projections do no harm the specification itself is admissible. */
  lemma HarmlessIsAdmissible(p: Program, spec: M.Spec, table: map<nat, nat>, requirements: seq<StorageRequirement>)
    requires Checked(p) && DropsHarmless(p, spec, table) && IsLowered(p, spec, table, requirements)
    ensures Admissible(p, spec, table)
  {
    LoweredIsWellFormed(p, spec, table, requirements);
    forall event, order: seq<nat> | NoDuplicates(order) && AllOfKind(p, event, order)
                                    && SortedByLayer(order, LayerOf(p, table))
      ensures OneStep.Topological(spec, order)
    {
      SortedIsTopological(p, requirements, spec.layers, table, event, order);
    }
    forall o | 0 <= o < |p.outputs| ensures spec.outputs[o] == LowerOutput(p, requirements, o) {
    }
  }

  lemma LayersAreTopological(p: Program, s: M.Spec, table: map<nat, nat>)
    requires Admissible(p, s, table)
    ensures OneStep.Topological(s, Flatten(s.layers))
  {
    var order := Flatten(s.layers);
    forall i | 0 <= i < |order| ensures order[i] < |p.outputs| && OfKind(p, true, p.inputs + order[i]) {
      assert order[i] in order;
    }
    assert AllOfKind(p, true, order);
  }

  // ---------- the schedule ----------

  const NANOSECONDS: nat := 1_000_000_000

  /** The period of a frequency in nanoseconds. */
  function PeriodOf(freq: Rat): Rat
    requires Positive(freq)
  {
    NewRat(NANOSECONDS * freq.den, freq.num)
  }

  /** A frequency in hertz times its period in nanoseconds is a second. */
  lemma PeriodExact(freq: Rat)
    requires Positive(freq)
    ensures Reduced(PeriodOf(freq))
    ensures PeriodOf(freq).num * freq.num == 1_000_000_000 * freq.den * PeriodOf(freq).den
  {
    NewRatReduced(NANOSECONDS * freq.den, freq.num);
  }

  /** The periodic outputs among the first `n`. */
  function TimeDrivenOf(p: Program, n: nat): seq<TimeDriven>
    requires n <= |p.outputs| && ClocksInferred(p)
  {
    if n == 0 then [] else
    TimeDrivenOf(p, n - 1)
    + (if p.outputs[n - 1].clock.RealTime? then [TimeDriven(n - 1, PeriodOf(p.outputs[n - 1].clock.freq))] else [])
  }

  lemma {:induction false} TimeDrivenMembers(p: Program, n: nat)
    requires n <= |p.outputs| && ClocksInferred(p)
    ensures ReducedPeriods(TimeDrivenOf(p, n)) && DistinctReferences(TimeDrivenOf(p, n))
    ensures forall i | 0 <= i < |TimeDrivenOf(p, n)| ::
              var s := TimeDrivenOf(p, n)[i];
              s.reference < n && p.outputs[s.reference].clock.RealTime?
                  && s.period == PeriodOf(p.outputs[s.reference].clock.freq)
    ensures forall o | 0 <= o < n && p.outputs[o].clock.RealTime? ::
              TimeDriven(o, PeriodOf(p.outputs[o].clock.freq)) in TimeDrivenOf(p, n)
  {
    if n > 0 {
      TimeDrivenMembers(p, n - 1);
      assert ClockInferred(p.outputs[n - 1].clock);
      if p.outputs[n - 1].clock.RealTime? {
        var freq := p.outputs[n - 1].clock.freq;
        NewRatReduced(NANOSECONDS * freq.den, freq.num);
      }
    }
  }

  /** The deadline is exact for some step of the cycle. */
  ghost predicate ExactForSomeStep(streams: seq<TimeDriven>, g: Rat, layer: nat -> nat, deadline: Schedules.Deadline)
    requires g.den > 0
  {
    exists gap: nat, step: nat :: DeadlineExact(streams, g, layer, deadline, gap, step)
  }

  /** Every deadline of the cycle is exact for the step it stands for. */
  ghost predicate ExactDeadlines(p: Program, table: map<nat, nat>, deadlines: seq<Schedules.Deadline>, g: Rat) {
    && ClocksInferred(p) && Positive(g)
    && forall m | 0 <= m < |deadlines| ::
         ExactForSomeStep(TimeDrivenOf(p, |p.outputs|), g, LayerOf(p, table), deadlines[m])
  }

  lemma DueDistinct(streams: seq<TimeDriven>, g: Rat, layer: nat -> nat, deadline: Schedules.Deadline, gap: nat,
                    step: nat)
    requires g.den > 0 && DeadlineExact(streams, g, layer, deadline, gap, step)
    ensures NoDuplicates(deadline.due)
  {
    var due := deadline.due;
    forall i, j | 0 <= i < j < |due| ensures due[i] != due[j] {
      assert due[i] in due;
      var k :| 0 <= k < |streams| && streams[k].reference == due[i];
      TwiceCounts(due, i, j);
    }
  }

  /** What is due at one deadline is admissible. */
  lemma DueIsTopological(p: Program, s: M.Spec, table: map<nat, nat>, g: Rat, deadline: Schedules.Deadline, gap: nat,
                         step: nat)
    requires ClocksInferred(p) && Admissible(p, s, table) && g.den > 0
    requires DeadlineExact(TimeDrivenOf(p, |p.outputs|), g, LayerOf(p, table), deadline, gap, step)
    ensures OneStep.Topological(s, deadline.due)
  {
    var streams, due := TimeDrivenOf(p, |p.outputs|), deadline.due;
    TimeDrivenMembers(p, |p.outputs|);
    forall i | 0 <= i < |due| ensures due[i] < |p.outputs| && OfKind(p, false, p.inputs + due[i]) {
      assert due[i] in due;
      var j :| 0 <= j < |streams| && streams[j].reference == due[i];
    }
    DueDistinct(streams, g, LayerOf(p, table), deadline, gap, step);
    assert AllOfKind(p, false, due);
  }

  lemma TwiceCounts(s: seq<nat>, i: nat, j: nat)
    requires i < j < |s|
    ensures s[i] == s[j] ==> multiset(s)[s[i]] >= 2
  {
    assert s == s[..j] + [s[j]] + s[j + 1..];
    assert s[i] in s[..j];
  }

  // ---------- runs ----------

  lemma {:induction false} DeadlineFromCycle(deadlines: seq<Schedules.Deadline>, k: nat, d: M.Step)
    requires deadlines != [] && d in FirstDeadlines(deadlines, k)
    ensures d.Deadline? && exists m :: 0 <= m < |deadlines| && d.due == deadlines[m].due
  {
    if d !in FirstDeadlines(deadlines, k - 1) {
      var m := if k == 1 then |deadlines| - 1 else (k - 2) % |deadlines|;
      assert d.due == deadlines[m].due;
    } else {
      DeadlineFromCycle(deadlines, k - 1, d);
    }
  }

  /** Every run of the controller evaluates admissible orders only. */
  lemma MergeIsWellOrdered(p: Program, s: M.Spec, table: map<nat, nat>, g: Rat, deadlines: seq<Schedules.Deadline>,
                           trace: seq<M.Step>, events: seq<M.Step>, k: nat)
    requires ClocksInferred(p) && Admissible(p, s, table)
    requires ExactDeadlines(p, table, deadlines, g) && Merges(trace, events, deadlines, k)
    ensures Histories.WellOrdered(s, trace)
  {
    LayersAreTopological(p, s, table);
    forall o: nat | o in Flatten(s.layers)
      ensures o < |s.outputs| && s.outputs[o].clock.EventDriven? && Activations.Runnable(s.outputs[o].clock.ac)
    {
      assert IsEventDriven(p, o) && ClockInferred(p.outputs[o].clock);
    }
    forall n | 0 <= n < |trace| && trace[n].Deadline? ensures OneStep.Topological(s, trace[n].due) {
      MembersOf(trace, n);
      DeadlineFromCycle(deadlines, k, trace[n]);
      var m :| 0 <= m < |deadlines| && trace[n].due == deadlines[m].due;
      assert ExactForSomeStep(TimeDrivenOf(p, |p.outputs|), g, LayerOf(p, table), deadlines[m]);
      var gap, step: nat :| DeadlineExact(TimeDrivenOf(p, |p.outputs|), g, LayerOf(p, table), deadlines[m], gap, step);
      DueIsTopological(p, s, table, g, deadlines[m], gap, step);
    }
  }

  /** The run of a specification ends in the newest values of a trace that satisfies the equations of `s`. */
  ghost predicate Computes(s: M.Spec, spec: M.Spec, prims: E.Prims, st: M.State, trace: seq<M.Step>) {
    exists t :: Histories.IsModel(s, prims, trace, t) && Histories.Holding(spec, st, t)
  }

  /** An admissible specification gets through a merge exactly if its equations have a solution, and computes it. */
  lemma AdmissibleRunComputes(p: Program, s: M.Spec, table: map<nat, nat>, g: Rat, deadlines: seq<Schedules.Deadline>,
                              trace: seq<M.Step>, events: seq<M.Step>, prims: E.Prims)
    requires ClocksInferred(p) && Admissible(p, s, table)
    requires ExactDeadlines(p, table, deadlines, g) && MergesSome(trace, events, deadlines)
    ensures M.RunAll(s, M.Interpreted(s, prims), trace).Ok? <==> Histories.HasModel(s, prims, trace)
    ensures M.RunAll(s, M.Interpreted(s, prims), trace).Ok? ==>
              Computes(s, s, prims, M.RunAll(s, M.Interpreted(s, prims), trace).value, trace)
  {
    var k: nat :| Merges(trace, events, deadlines, k);
    MergeIsWellOrdered(p, s, table, g, deadlines, trace, events, k);
    Histories.RunsIffModelled(s, prims, trace);
    if M.RunAll(s, M.Interpreted(s, prims), trace).Ok? {
      var t := Histories.RunHasModel(s, prims, trace);
      Histories.EvaluatorRefines(s, prims, trace, t);
    }
  }

  /** What the program says: projections are their entries, and windows are over their targets. */
  ghost function Declared(spec: M.Spec): M.Spec {
    Histories.Intended(Pruning.Pruned(spec))
  }

  /**
   Without windows in triggers, a trace satisfies what the program says exactly if it satisfies the
   linked equations.
   */
  lemma DeclaredModel(p: Program, spec: M.Spec, table: map<nat, nat>, requirements: seq<StorageRequirement>,
                      prims: E.Prims, trace: seq<M.Step>, t: Histories.Trace)
    requires TriggersReadNoWindow(p) && IsLowered(p, spec, table, requirements)
    ensures Histories.IsModel(Declared(spec), prims, trace, t)
            <==> Histories.IsModel(Pruning.Pruned(spec), prims, trace, t)
  {
    WindowsLinked(p, requirements, spec.layers);
    forall o | 0 <= o < |spec.outputs|
      ensures E.Reads(Pruning.Pruned(spec).outputs[o].expr) <= E.Reads(spec.outputs[o].expr)
    {
      Pruning.PrunedReads(spec.outputs[o].expr);
      D.KeptReadsAreReads(spec.outputs[o].expr);
    }
    Histories.LinkedIsIntended(Pruning.Pruned(spec), prims, trace, t);
  }

  /** What the runs of merges compute, for every program. */
  lemma MergedRunComputes(p: Program, spec: M.Spec, table: map<nat, nat>, requirements: seq<StorageRequirement>, g: Rat,
                          deadlines: seq<Schedules.Deadline>, trace: seq<M.Step>, events: seq<M.Step>, prims: E.Prims)
    requires Checked(p) && IsLowered(p, spec, table, requirements)
    requires ExactDeadlines(p, table, deadlines, g) && MergesSome(trace, events, deadlines)
    ensures var r := M.RunAll(spec, M.Interpreted(spec, prims), trace);
            && (r.Ok? ==> Computes(Pruning.Pruned(spec), spec, prims, r.value, trace))
            && (r.Ok? && TriggersReadNoWindow(p) ==> Computes(Declared(spec), spec, prims, r.value, trace))
    ensures var r := M.RunAll(spec, M.Interpreted(spec, prims), trace);
            DropsHarmless(p, spec, table) ==>
              && (r.Ok? <==> Histories.HasModel(spec, prims, trace))
              && (r.Ok? ==> Computes(spec, spec, prims, r.value, trace))
  {
    if M.RunAll(spec, M.Interpreted(spec, prims), trace).Ok? {
      PrunedRunComputes(p, spec, table, requirements, g, deadlines, trace, events, prims);
    }
    if DropsHarmless(p, spec, table) {
      HarmlessIsAdmissible(p, spec, table, requirements);
      AdmissibleRunComputes(p, spec, table, g, deadlines, trace, events, prims);
    }
  }

  lemma PrunedRunComputes(p: Program, spec: M.Spec, table: map<nat, nat>, requirements: seq<StorageRequirement>, g: Rat,
                          deadlines: seq<Schedules.Deadline>, trace: seq<M.Step>, events: seq<M.Step>, prims: E.Prims)
    requires Checked(p) && IsLowered(p, spec, table, requirements)
    requires ExactDeadlines(p, table, deadlines, g) && MergesSome(trace, events, deadlines)
    requires M.RunAll(spec, M.Interpreted(spec, prims), trace).Ok?
    ensures var st := M.RunAll(spec, M.Interpreted(spec, prims), trace).value;
            && Computes(Pruning.Pruned(spec), spec, prims, st, trace)
            && (TriggersReadNoWindow(p) ==> Computes(Declared(spec), spec, prims, st, trace))
  {
    var s, st := Pruning.Pruned(spec), M.RunAll(spec, M.Interpreted(spec, prims), trace).value;
    Pruning.RunPruned(spec, prims, trace);
    PrunedIsAdmissible(p, spec, table, requirements);
    AdmissibleRunComputes(p, s, table, g, deadlines, trace, events, prims);
    var t :| Histories.IsModel(s, prims, trace, t) && Histories.Holding(s, st, t);
    Pruning.HoldingPruned(spec, st, t);
    if TriggersReadNoWindow(p) {
      DeclaredModel(p, spec, table, requirements, prims, trace, t);
    }
  }

  /** The exact cycle of the periodic outputs over one hyper period; nothing if there are none. */
  ghost predicate IsScheduleOf(p: Program, table: map<nat, nat>, deadlines: seq<Schedules.Deadline>)
    requires ClocksInferred(p)
  {
    var streams := TimeDrivenOf(p, |p.outputs|);
    if streams == [] then deadlines == []
    else exists g, h, gaps :: CycleOver(streams, g, h, LayerOf(p, table), deadlines, gaps)
  }

  ghost predicate CycleOver(streams: seq<TimeDriven>, g: Rat, h: Rat, layer: nat -> nat,
                            deadlines: seq<Schedules.Deadline>, gaps: seq<nat>) {
    && GcdOfPeriods(streams, g) && HyperPeriodOf(streams, h) && IsMultiple(h, g, Elapsed(gaps, |gaps|))
    && ExactCycle(streams, g, Elapsed(gaps, |gaps|), layer, deadlines, gaps)
  }

  /** The hyper period has ten million steps or more. */
  ghost predicate TooManySteps(p: Program)
    requires ClocksInferred(p)
  {
    var streams := TimeDrivenOf(p, |p.outputs|);
    && streams != []
    && exists g, h, n: nat ::
         GcdOfPeriods(streams, g) && HyperPeriodOf(streams, h) && IsMultiple(h, g, n) && n >= 10_000_000
  }

  /** The schedule of a program; `Nothing` if its frequencies are too incompatible. */
  method ScheduleOf(p: Program, table: map<nat, nat>) returns (deadlines: Option<seq<Schedules.Deadline>>)
    requires Checked(p)
    ensures deadlines.Just? ==> IsScheduleOf(p, table, deadlines.value)
    ensures deadlines.Nothing? ==> TooManySteps(p)
  {
    var streams := TimeDrivenOf(p, |p.outputs|);
    TimeDrivenMembers(p, |p.outputs|);
    if streams == [] {
      deadlines := Just([]);
    } else {
      var schedule;
      ghost var g, gaps;
      schedule, g, gaps := From(streams, LayerOf(p, table));
      if schedule.value.Nothing? {
        deadlines := Nothing;
      } else {
        deadlines := Just(schedule.value.value.deadlines);
        ghost var h: Rat :| HyperPeriodOf(streams, h) && IsMultiple(h, g, Elapsed(gaps, |gaps|));
        assert CycleOver(streams, g, h, LayerOf(p, table), deadlines.value, gaps);
      }
    }
  }

  lemma ScheduleIsExact(p: Program, table: map<nat, nat>, deadlines: seq<Schedules.Deadline>) returns (g: Rat)
    requires Checked(p) && IsScheduleOf(p, table, deadlines)
    ensures ExactDeadlines(p, table, deadlines, g)
  {
    var streams, layer := TimeDrivenOf(p, |p.outputs|), LayerOf(p, table);
    if streams == [] {
      g := ONE;
    } else {
      var g', h, gaps :| CycleOver(streams, g', h, layer, deadlines, gaps);
      g := g';
      forall m | 0 <= m < |deadlines| ensures ExactForSomeStep(streams, g, layer, deadlines[m]) {
        assert DeadlineExact(streams, g, layer, deadlines[m], gaps[m], Elapsed(gaps, m + 1));
      }
    }
  }

  // ---------- zero pauses ----------

  lemma PeriodsFit(streams: seq<TimeDriven>, g: Rat, h: Rat, n: nat)
    requires ReducedPeriods(streams) && GcdOfPeriods(streams, g) && HyperPeriodOf(streams, h) && IsMultiple(h, g, n)
    ensures n > 0 && forall i | 0 <= i < |streams| :: PeriodFits(streams[i].period, g, n)
  {
    CellsPositive(h, g, n);
    GcdMeasuresPeriods(streams, g);
    PeriodsMeasureHyper(streams, h);
    forall i | 0 <= i < |streams| ensures PeriodFits(streams[i].period, g, n) {
      HyperIsSteps(g, h, n, streams[i].period);
      DividesBounds(StepsOf(g, streams[i].period), n);
    }
  }

  /** The schedule of a program with periodic streams is a cycle. */
  lemma ScheduleCycle(p: Program, table: map<nat, nat>, deadlines: seq<Schedules.Deadline>)
    returns (g: Rat, n: nat, gaps: seq<nat>)
    requires Checked(p) && IsScheduleOf(p, table, deadlines) && TimeDrivenOf(p, |p.outputs|) != []
    ensures ZeroPauses.Cycle(TimeDrivenOf(p, |p.outputs|), g, n, LayerOf(p, table), deadlines, gaps)
  {
    var streams := TimeDrivenOf(p, |p.outputs|);
    TimeDrivenMembers(p, |p.outputs|);
    var f, h, pauses :| CycleOver(streams, f, h, LayerOf(p, table), deadlines, pauses);
    g, n, gaps := f, Elapsed(pauses, |pauses|), pauses;
    PeriodsFit(streams, g, h, n);
  }

  /**
   Which programs have a schedule without a zero pause: those in which any two periods have a greatest
   common divisor of at least a nanosecond.
   */
  lemma PausesPositiveIffApart(p: Program, table: map<nat, nat>, deadlines: seq<Schedules.Deadline>)
    requires Checked(p) && IsScheduleOf(p, table, deadlines)
    ensures ReducedPeriods(TimeDrivenOf(p, |p.outputs|))
    ensures PositivePauses(deadlines) <==> ZeroPauses.PairsApart(TimeDrivenOf(p, |p.outputs|))
  {
    var streams := TimeDrivenOf(p, |p.outputs|);
    TimeDrivenMembers(p, |p.outputs|);
    if streams != [] {
      var g, n, gaps := ScheduleCycle(p, table, deadlines);
      ZeroPauses.PausesPositiveIff(streams, g, n, LayerOf(p, table), deadlines, gaps);
    }
  }

  /** At the start every periodic output is due. */
  lemma AllDueAtStart(p: Program, table: map<nat, nat>, deadlines: seq<Schedules.Deadline>, o: nat)
    requires Checked(p) && IsScheduleOf(p, table, deadlines) && o < |p.outputs| && p.outputs[o].clock.RealTime?
    ensures deadlines != [] && o in DueAt(deadlines, 0)
  {
    var streams := TimeDrivenOf(p, |p.outputs|);
    TimeDrivenMembers(p, |p.outputs|);
    var i :| 0 <= i < |streams| && streams[i] == TimeDriven(o, PeriodOf(p.outputs[o].clock.freq));
    var g, n, gaps := ScheduleCycle(p, table, deadlines);
    Replays.DueExactly(streams, g, n, LayerOf(p, table), deadlines, gaps, i, 0);
    assert IsMultiple(StepTime(g, 0), streams[i].period, 0);
  }
}
