/** The computation graph of a set of streams, and when it is acyclic. */
module ComputeGraphs {
  import opened Sequences
  import opened Graphs
  import opened Layering
  import D = Dependencies

  /** The step that needs the access, by the place of the accessing expression. */
  function StepAt(location: D.Location, id: nat): ComputeStep {
    match location
    case Invoke => Invoke(id)
    case Extend => Extend(id)
    case Expression => Evaluate(id)
    case Terminate => Terminate(id)
  }

  /** What one dependency adds: a step of the source that needs a step of the target. */
  function NeedOf(d: D.Dep): set<(ComputeStep, ComputeStep)> {
    match d.weight
    case InvokeByName => {(Invoke(d.src), Evaluate(d.dst))}
    case Access(location, offset) =>
      match offset
      case Discrete(k) =>
        if k == 0 then {(StepAt(location, d.src), Evaluate(d.dst))}
        else if k < 0 then {(StepAt(location, d.src), Extend(d.dst))}
        else {}
      case Time(t) => if t == D.UpToNow then {(Evaluate(d.src), Evaluate(d.dst))} else {}
      case SlidingWindow => if d.src != d.dst then {(Evaluate(d.src), Evaluate(d.dst))} else {}
  }

  /** What the steps of one stream need of each other. */
  function OwnNeeds(id: nat): set<(ComputeStep, ComputeStep)> {
    {(Extend(id), Invoke(id)), (Terminate(id), Invoke(id)), (Evaluate(id), Extend(id))}
  }

  /** The steps that an access with an offset connects, for every place and kind of offset. */
  lemma NeedsExact(d: D.Dep, x: ComputeStep, y: ComputeStep)
    ensures (x, y) in NeedOf(d) <==>
            && (y == Evaluate(d.dst) || (y == Extend(d.dst) && IsPast(d.weight)))
            && (if d.weight.InvokeByName? then x == Invoke(d.src)
                else if d.weight.offset.Discrete? then
                  && d.weight.offset.offset <= 0 && (y.Extend? <==> d.weight.offset.offset < 0)
                  && (d.weight.location.Invoke? ==> x == Invoke(d.src))
                  && (d.weight.location.Extend? ==> x == Extend(d.src))
                  && (d.weight.location.Expression? ==> x == Evaluate(d.src))
                  && (d.weight.location.Terminate? ==> x == Terminate(d.src))
                else x == Evaluate(d.src) && D.SameInstant(d))
  {
  }

  predicate IsPast(w: D.Dependency) {
    w.Access? && w.offset.Discrete? && w.offset.offset < 0
  }

  /** The steps of a stream come in the order invoke, extend, evaluate; it may terminate after its invocation. */
  lemma OwnNeedsExact(id: nat, x: ComputeStep, y: ComputeStep)
    ensures (x, y) in OwnNeeds(id) <==>
            || (y == Invoke(id) && (x == Extend(id) || x == Terminate(id)))
            || (y == Extend(id) && x == Evaluate(id))
  {
  }

  function AllNeeds(streams: seq<nat>, deps: seq<D.Dep>): set<(ComputeStep, ComputeStep)> {
    (set s, e | s in streams && e in OwnNeeds(s) :: e) + (set d, e | d in deps && e in NeedOf(d) :: e)
  }

  function StepsOf(id: nat): seq<ComputeStep> {
    [Invoke(id), Extend(id), Evaluate(id), Terminate(id)]
  }

  function AllSteps(streams: seq<nat>): seq<ComputeStep> {
    if streams == [] then [] else AllSteps(streams[..|streams| - 1]) + StepsOf(streams[|streams| - 1])
  }

  predicate Among(deps: seq<D.Dep>, streams: seq<nat>) {
    forall d | d in deps :: d.src in streams && d.dst in streams
  }

  // ---------- construction ----------

  datatype StepEntry = StepEntry(invoke: nat, extend: nat, evaluate: nat, terminate: nat)

  predicate EntryFor(nodes: seq<ComputeStep>, id: nat, entry: StepEntry) {
    && entry.invoke < |nodes| && nodes[entry.invoke] == Invoke(id)
    && entry.extend < |nodes| && nodes[entry.extend] == Extend(id)
    && entry.evaluate < |nodes| && nodes[entry.evaluate] == Evaluate(id)
    && entry.terminate < |nodes| && nodes[entry.terminate] == Terminate(id)
  }

  predicate Mapped(nodes: seq<ComputeStep>, streams: seq<nat>, mapping: map<nat, StepEntry>) {
    forall id | id in streams :: id in mapping && EntryFor(nodes, id, mapping[id])
  }

  function EntryAt(entry: StepEntry, location: D.Location): nat {
    match location
    case Invoke => entry.invoke
    case Extend => entry.extend
    case Expression => entry.evaluate
    case Terminate => entry.terminate
  }

  /** The positions a dependency connects. */
  method DependencyEdge(nodes: seq<ComputeStep>, d: D.Dep, source: StepEntry,
                        target: StepEntry) returns (edges: set<(nat, nat)>)
    requires EntryFor(nodes, d.src, source) && EntryFor(nodes, d.dst, target)
    ensures forall e | e in edges :: e.0 < |nodes| && e.1 < |nodes|
    ensures (set e | e in edges && e.0 < |nodes| && e.1 < |nodes| :: (nodes[e.0], nodes[e.1])) == NeedOf(d)
  {
    edges := {};
    match d.weight
    case InvokeByName => edges := {(source.invoke, target.evaluate)};
    case Access(location, offset) =>
      match offset {
        case Discrete(k) =>
          if k == 0 {
            edges := {(EntryAt(source, location), target.evaluate)};
          } else if k < 0 {
            edges := {(EntryAt(source, location), target.extend)};
          }
        case Time(t) =>
          if t == D.UpToNow {
            edges := {(source.evaluate, target.evaluate)};
          }
        case SlidingWindow =>
          if d.src != d.dst {
            edges := {(source.evaluate, target.evaluate)};
          }
      }
  }

  ghost predicate Connects(nodes: seq<ComputeStep>, edges: set<(nat, nat)>, needs: set<(ComputeStep, ComputeStep)>) {
    && (forall e | e in edges :: e.0 < |nodes| && e.1 < |nodes|)
    && (set e | e in edges && e.0 < |nodes| && e.1 < |nodes| :: (nodes[e.0], nodes[e.1])) == needs
  }

  lemma ConnectsJoin(nodes: seq<ComputeStep>, edges: set<(nat, nat)>, more: set<(nat, nat)>,
                     needs: set<(ComputeStep, ComputeStep)>, added: set<(ComputeStep, ComputeStep)>)
    requires Connects(nodes, edges, needs) && Connects(nodes, more, added)
    ensures Connects(nodes, edges + more, needs + added)
  {
    var all := set e | e in edges + more && e.0 < |nodes| && e.1 < |nodes| :: (nodes[e.0], nodes[e.1]);
    var first := set e | e in edges && e.0 < |nodes| && e.1 < |nodes| :: (nodes[e.0], nodes[e.1]);
    var second := set e | e in more && e.0 < |nodes| && e.1 < |nodes| :: (nodes[e.0], nodes[e.1]);
    assert all == first + second;
  }

  lemma ConnectsMoreNodes(nodes: seq<ComputeStep>, edges: set<(nat, nat)>, needs: set<(ComputeStep, ComputeStep)>,
                          more: seq<ComputeStep>)
    requires Connects(nodes, edges, needs)
    ensures Connects(nodes + more, edges, needs)
  {
    var all := nodes + more;
    assert forall e | e in edges :: all[e.0] == nodes[e.0] && all[e.1] == nodes[e.1];
    assert (set e | e in edges && e.0 < |nodes| && e.1 < |nodes| :: (nodes[e.0], nodes[e.1]))
        == (set e | e in edges && e.0 < |all| && e.1 < |all| :: (all[e.0], all[e.1]));
  }

  /** Adds the four steps of a stream, with the edges between them. */
  method AddStream(nodes: seq<ComputeStep>, edges: set<(nat, nat)>, id: nat,
                   ghost needs: set<(ComputeStep, ComputeStep)>)
    returns (nodes': seq<ComputeStep>, edges': set<(nat, nat)>, entry: StepEntry)
    requires Connects(nodes, edges, needs)
    ensures nodes' == nodes + StepsOf(id) && Connects(nodes', edges', needs + OwnNeeds(id))
            && EntryFor(nodes', id, entry)
  {
    var n := |nodes|;
    nodes' := nodes + StepsOf(id);
    entry := StepEntry(n, n + 1, n + 2, n + 3);
    var own := {(entry.extend, entry.invoke), (entry.terminate, entry.invoke), (entry.evaluate, entry.extend)};
    edges' := edges + own;
    ConnectsMoreNodes(nodes, edges, needs, StepsOf(id));
    assert (set e | e in own && e.0 < |nodes'| && e.1 < |nodes'| :: (nodes'[e.0], nodes'[e.1])) == OwnNeeds(id);
    ConnectsJoin(nodes', edges, own, needs, OwnNeeds(id));
  }

  lemma StreamNeedsSnoc(streams: seq<nat>, s: nat)
    ensures AllNeeds(streams + [s], []) == AllNeeds(streams, []) + OwnNeeds(s)
  {
  }

  lemma DependencyNeedsSnoc(streams: seq<nat>, deps: seq<D.Dep>, d: D.Dep)
    ensures AllNeeds(streams, deps + [d]) == AllNeeds(streams, deps) + NeedOf(d)
  {
  }

  lemma MappedSnoc(nodes: seq<ComputeStep>, streams: seq<nat>, mapping: map<nat, StepEntry>, id: nat, entry: StepEntry)
    requires Mapped(nodes, streams, mapping) && EntryFor(nodes + StepsOf(id), id, entry)
    ensures Mapped(nodes + StepsOf(id), streams + [id], mapping[id := entry])
  {
  }

  lemma AllStepsSnoc(streams: seq<nat>, id: nat)
    ensures AllSteps(streams + [id]) == AllSteps(streams) + StepsOf(id)
  {
    assert (streams + [id])[..|streams|] == streams;
  }

  method AddStreams(streams: seq<nat>)
    returns (nodes: seq<ComputeStep>, edges: set<(nat, nat)>, mapping: map<nat, StepEntry>)
    ensures nodes == AllSteps(streams) && Mapped(nodes, streams, mapping)
    ensures Connects(nodes, edges, AllNeeds(streams, []))
  {
    nodes, edges, mapping := [], {}, map[];
    for i := 0 to |streams|
      invariant nodes == AllSteps(streams[..i]) && Mapped(nodes, streams[..i], mapping)
      invariant Connects(nodes, edges, AllNeeds(streams[..i], []))
    {
      ghost var before, known := streams[..i], nodes;
      assert streams[..i + 1] == before + [streams[i]];
      StreamNeedsSnoc(before, streams[i]);
      AllStepsSnoc(before, streams[i]);
      var entry;
      nodes, edges, entry := AddStream(nodes, edges, streams[i], AllNeeds(before, []));
      MappedSnoc(known, before, mapping, streams[i], entry);
      mapping := mapping[streams[i] := entry];
    }
    assert streams[..|streams|] == streams;
  }

  method AddDependencies(streams: seq<nat>, deps: seq<D.Dep>, nodes: seq<ComputeStep>, own: set<(nat, nat)>,
                         mapping: map<nat, StepEntry>)
    returns (edges: set<(nat, nat)>)
    requires Among(deps, streams) && Mapped(nodes, streams, mapping)
    requires Connects(nodes, own, AllNeeds(streams, []))
    ensures Connects(nodes, edges, AllNeeds(streams, deps))
  {
    edges := own;
    for i := 0 to |deps|
      invariant Connects(nodes, edges, AllNeeds(streams, deps[..i]))
    {
      assert deps[i] in deps;
      DependencyNeedsSnoc(streams, deps[..i], deps[i]);
      assert deps[..i + 1] == deps[..i] + [deps[i]];
      var more := DependencyEdge(nodes, deps[i], mapping[deps[i].src], mapping[deps[i].dst]);
      ConnectsJoin(nodes, edges, more, AllNeeds(streams, deps[..i]), NeedOf(deps[i]));
      edges := edges + more;
    }
    assert deps[..|deps|] == deps;
  }

  /**
   The computation graph has the four steps of every stream, and exactly the needs of the streams and
   dependencies.
   */
  method BuildComputeGraph(streams: seq<nat>, deps: seq<D.Dep>) returns (g: ComputationGraph)
    requires NoDuplicates(streams) && Among(deps, streams)
    ensures WellShaped(g) && g.nodes == AllSteps(streams) && Needs(g) == AllNeeds(streams, deps)
  {
    var nodes, own, mapping := AddStreams(streams);
    var edges := AddDependencies(streams, deps, nodes, own, mapping);
    AllStepsDistinct(streams);
    g := ComputationGraph(nodes, edges);
    assert Needs(g) == set e | e in edges && e.0 < |nodes| && e.1 < |nodes| :: (nodes[e.0], nodes[e.1]);
  }

  lemma {:induction false} AllStepsMembers(streams: seq<nat>, s: ComputeStep)
    ensures s in AllSteps(streams) <==> s.id in streams
  {
    if streams != [] {
      var init, last := streams[..|streams| - 1], streams[|streams| - 1];
      assert streams == init + [last];
      AllStepsMembers(init, s);
      assert s in StepsOf(last) <==> s.id == last;
    }
  }

  lemma {:induction false} AllStepsDistinct(streams: seq<nat>)
    requires NoDuplicates(streams)
    ensures NoDuplicates(AllSteps(streams))
  {
    if streams != [] {
      var init, last := streams[..|streams| - 1], streams[|streams| - 1];
      AllStepsDistinct(init);
      var before, both := AllSteps(init), AllSteps(init) + StepsOf(last);
      forall j, k | 0 <= j < |before| <= k < |both| ensures both[j] != both[k] {
        AllStepsMembers(init, before[j]);
        assert before[j] in before && both[k].id == last && last !in init;
      }
      assert both[|before|..] == StepsOf(last);
      DistinctJoin(before, both);
    }
  }

  lemma NeedEnds(streams: seq<nat>, deps: seq<D.Dep>, e: (ComputeStep, ComputeStep))
    requires Among(deps, streams) && e in AllNeeds(streams, deps)
    ensures e.0.id in streams && e.1.id in streams
  {
    if s :| s in streams && e in OwnNeeds(s) {
      assert e.0.id == s && e.1.id == s;
    } else {
      var d :| d in deps && e in NeedOf(d);
      assert e.0.id == d.src && e.1.id == d.dst;
    }
  }

  lemma NeedsClosed(streams: seq<nat>, deps: seq<D.Dep>, all: set<ComputeStep>)
    requires Among(deps, streams) && all == Elements(AllSteps(streams))
    ensures Closed(all, AllNeeds(streams, deps))
  {
    forall e | e in AllNeeds(streams, deps) ensures e.0 in all && e.1 in all {
      NeedEnds(streams, deps, e);
      AllStepsMembers(streams, e.0);
      AllStepsMembers(streams, e.1);
    }
  }

  // ---------- acyclicity ----------

  /** Specifications without stream templates: every dependency comes from a stream's own expression. */
  predicate WithoutTemplates(deps: seq<D.Dep>) {
    forall d | d in deps :: d.weight.Access? && d.weight.location.Expression?
  }

  /** A step other than an evaluation needs no evaluation, not even indirectly. */
  lemma {:induction false} EvaluationsOnly(streams: seq<nat>, deps: seq<D.Dep>, p: seq<ComputeStep>, i: nat)
    requires WithoutTemplates(deps) && Walk(AllNeeds(streams, deps), p) && i < |p| && p[|p| - 1].Evaluate?
    ensures p[i].Evaluate?
    decreases |p| - i
  {
    if i + 1 < |p| {
      EvaluationsOnly(streams, deps, p, i + 1);
      assert (p[i], p[i + 1]) in AllNeeds(streams, deps);
    }
  }

  lemma EvaluationLink(streams: seq<nat>, deps: seq<D.Dep>, s: nat, t: nat)
    requires WithoutTemplates(deps)
    ensures (Evaluate(s), Evaluate(t)) in AllNeeds(streams, deps) <==> (s, t) in D.SameInstantLinks(deps)
  {
    if (Evaluate(s), Evaluate(t)) in AllNeeds(streams, deps) {
      var d :| d in deps && (Evaluate(s), Evaluate(t)) in NeedOf(d);
      var i :| 0 <= i < |deps| && deps[i] == d;
      assert D.SameInstant(deps[i]);
    }
    if (s, t) in D.SameInstantLinks(deps) {
      var i :| 0 <= i < |deps| && D.SameInstant(deps[i]) && (s, t) == (deps[i].src, deps[i].dst);
      assert deps[i] in deps && (Evaluate(s), Evaluate(t)) in NeedOf(deps[i]);
    }
  }

  /** A step that is not an evaluation is on no cycle: its rank falls along every need. */
  function Rank(s: ComputeStep): nat {
    match s
    case Invoke(_) => 0
    case Extend(_) => 1
    case Terminate(_) => 1
    case Evaluate(_) => 2
  }

  lemma {:induction false} RankFalls(streams: seq<nat>, deps: seq<D.Dep>, p: seq<ComputeStep>, i: nat)
    requires WithoutTemplates(deps) && Walk(AllNeeds(streams, deps), p) && 0 < i < |p| && !p[0].Evaluate?
    ensures Rank(p[i]) < Rank(p[0])
  {
    assert (p[i - 1], p[i]) in AllNeeds(streams, deps);
    if i > 1 {
      RankFalls(streams, deps, p, i - 1);
    }
  }

  /** Without templates, the computation graph is acyclic exactly if the same-instant accesses are. */
  lemma AcyclicIffSameInstantAcyclic(streams: seq<nat>, deps: seq<D.Dep>)
    requires WithoutTemplates(deps)
    ensures Acyclic(AllNeeds(streams, deps)) <==> Acyclic(D.SameInstantLinks(deps))
  {
    if Acyclic(AllNeeds(streams, deps)) {
      forall p | Walk(D.SameInstantLinks(deps), p) && |p| >= 2 ensures p[0] != p[|p| - 1] {
        var q := seq(|p|, i requires 0 <= i < |p| => Evaluate(p[i]));
        forall i | 0 <= i < |q| - 1 ensures (q[i], q[i + 1]) in AllNeeds(streams, deps) {
          EvaluationLink(streams, deps, p[i], p[i + 1]);
          assert (p[i], p[i + 1]) in D.SameInstantLinks(deps);
        }
        assert Walk(AllNeeds(streams, deps), q);
      }
    }
    if Acyclic(D.SameInstantLinks(deps)) {
      forall p: seq<ComputeStep> | Walk(AllNeeds(streams, deps), p) && |p| >= 2 ensures p[0] != p[|p| - 1] {
        if !p[0].Evaluate? {
          RankFalls(streams, deps, p, |p| - 1);
        } else if p[|p| - 1].Evaluate? {
          EvaluationWalk(streams, deps, p);
        }
      }
    }
  }

  lemma EvaluationWalk(streams: seq<nat>, deps: seq<D.Dep>, p: seq<ComputeStep>)
    requires WithoutTemplates(deps) && Acyclic(D.SameInstantLinks(deps))
    requires Walk(AllNeeds(streams, deps), p) && |p| >= 2 && p[|p| - 1].Evaluate?
    ensures p[0] != p[|p| - 1]
  {
    forall i | 0 <= i < |p| ensures p[i].Evaluate? {
      EvaluationsOnly(streams, deps, p, i);
    }
    var q := seq(|p|, i requires 0 <= i < |p| => p[i].id);
    forall i | 0 <= i < |q| - 1 ensures (q[i], q[i + 1]) in D.SameInstantLinks(deps) {
      EvaluationLink(streams, deps, p[i].id, p[i + 1].id);
      assert (p[i], p[i + 1]) in AllNeeds(streams, deps);
    }
    assert Walk(D.SameInstantLinks(deps), q);
  }
}
