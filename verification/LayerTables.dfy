/** Evaluation layers: the table of layer numbers, and the layers of the event-driven outputs. */
module LayerTables {
  import opened Sequences
  import opened Graphs
  import opened Layering
  import opened ComputeGraphs
  import D = Dependencies

  // ---------- the table ----------

  function Ids(layer: seq<ComputeStep>): set<nat> {
    set s | s in layer :: s.id
  }

  /** Every step of a layer sets the number of its stream; later layers override earlier ones. */
  function LayerEntries(layer: seq<ComputeStep>, ix: nat): map<nat, nat> {
    map id | id in Ids(layer) :: ix
  }

  function TableOf(order: seq<seq<ComputeStep>>): map<nat, nat> {
    if order == [] then map[]
    else TableOf(order[..|order| - 1]) + LayerEntries(order[|order| - 1], |order| - 1)
  }

  /** Adds the entries of one layer. */
  lemma EntriesNext(table: map<nat, nat>, layer: seq<ComputeStep>, ix: nat, i: nat)
    requires i < |layer|
    ensures table + LayerEntries(layer[..i + 1], ix) == (table + LayerEntries(layer[..i], ix))[layer[i].id := ix]
  {
    assert layer[..i + 1] == layer[..i] + [layer[i]];
  }

  method CollectLayer(table: map<nat, nat>, layer: seq<ComputeStep>, ix: nat) returns (r: map<nat, nat>)
    ensures r == table + LayerEntries(layer, ix)
  {
    r := table;
    for i := 0 to |layer|
      invariant r == table + LayerEntries(layer[..i], ix)
    {
      r := r[layer[i].id := ix];
      EntriesNext(table, layer, ix, i);
    }
    assert layer[..|layer|] == layer;
  }

  lemma MergeAssociative(a: map<nat, nat>, b: map<nat, nat>, c: map<nat, nat>)
    ensures (a + b) + c == a + (b + c)
  {
  }

  lemma TableSnoc(order: seq<seq<ComputeStep>>, ix: nat)
    requires ix < |order|
    ensures TableOf(order[..ix + 1]) == TableOf(order[..ix]) + LayerEntries(order[ix], ix)
  {
    assert order[..ix + 1][..ix] == order[..ix];
  }

  /** Collects the entries of an order, layer by layer. */
  method CollectEntries(table: map<nat, nat>, order: seq<seq<ComputeStep>>) returns (r: map<nat, nat>)
    ensures r == table + TableOf(order)
  {
    r := table;
    for ix := 0 to |order|
      invariant r == table + TableOf(order[..ix])
    {
      r := CollectLayer(r, order[ix], ix);
      MergeAssociative(table, TableOf(order[..ix]), LayerEntries(order[ix], ix));
      TableSnoc(order, ix);
    }
    assert order[..|order|] == order;
  }

  method OrderToTable(periodic: seq<seq<ComputeStep>>, eventBased: seq<seq<ComputeStep>>) returns (table: map<nat, nat>)
    ensures table == TableOf(periodic) + TableOf(eventBased)
  {
    table := CollectEntries(map[], periodic);
    table := CollectEntries(table, eventBased);
  }

  ghost predicate StepInLayer(order: seq<seq<ComputeStep>>, id: nat, k: nat) {
    k < |order| && exists s :: s in order[k] && s.id == id
  }

  /** The table holds the last layer with a step of the stream. */
  lemma {:induction false} TableHoldsLast(order: seq<seq<ComputeStep>>, id: nat)
    ensures id in TableOf(order) <==> exists k :: StepInLayer(order, id, k)
    ensures id in TableOf(order) ==>
              StepInLayer(order, id, TableOf(order)[id]) && forall k | StepInLayer(order, id, k) ::
                    k <= TableOf(order)[id]
  {
    if order != [] {
      var n := |order| - 1;
      TableHoldsLast(order[..n], id);
      forall k: nat | k < n ensures StepInLayer(order, id, k) <==> StepInLayer(order[..n], id, k) {
        assert order[k] == order[..n][k];
      }
      assert StepInLayer(order, id, n) <==> id in LayerEntries(order[n], n);
    }
  }

  // ---------- layers of streams without templates ----------

  /** The layering of the computation graph of some streams. */
  ghost predicate OrderOf(order: seq<seq<ComputeStep>>, streams: seq<nat>, deps: seq<D.Dep>) {
    && NoDuplicates(streams) && Among(deps, streams) && WithoutTemplates(deps)
    && (forall s, k: nat :: InLayer(order, s, k) <==> s.id in streams && LongestPath(AllNeeds(streams, deps), s, k))
    && forall s: ComputeStep | s.id in streams :: exists k: nat :: InLayer(order, s, k)
  }

  lemma PathTwo(needs: set<(ComputeStep, ComputeStep)>, s: ComputeStep, t: ComputeStep, k: nat)
    requires (s, t) in needs && HasPath(needs, t, k)
    ensures HasPath(needs, s, k + 1)
  {
    var p :| Walk(needs, p) && p[0] == t && |p| == k + 1;
    WalkJoin(needs, [s, t], p);
    assert |[s, t] + p[1..]| == k + 2;
  }

  lemma OwnPaths(streams: seq<nat>, deps: seq<D.Dep>, id: nat)
    requires id in streams
    ensures var needs := AllNeeds(streams, deps);
            (Extend(id), Invoke(id)) in needs && (Evaluate(id), Extend(id)) in needs && HasPath(needs, Evaluate(id), 2)
  {
    var needs := AllNeeds(streams, deps);
    assert (Extend(id), Invoke(id)) in OwnNeeds(id) && (Evaluate(id), Extend(id)) in OwnNeeds(id);
    var p := [Evaluate(id), Extend(id), Invoke(id)];
    assert Walk(needs, p) && p[0] == Evaluate(id) && |p| == 3;
  }

  lemma {:induction false} RanksFall(streams: seq<nat>, deps: seq<D.Dep>, p: seq<ComputeStep>)
    requires WithoutTemplates(deps) && Walk(AllNeeds(streams, deps), p) && !p[0].Evaluate?
    ensures |p| <= Rank(p[0]) + 1
    decreases |p|
  {
    if |p| >= 2 {
      assert (p[0], p[1]) in AllNeeds(streams, deps);
      WalkPart(AllNeeds(streams, deps), p, 1, |p|);
      RanksFall(streams, deps, p[1..]);
    }
  }

  /** No step of a stream comes after its evaluation: termination needs at most the invocation. */
  lemma EvaluationIsLast(streams: seq<nat>, deps: seq<D.Dep>, s: ComputeStep, k: nat)
    requires WithoutTemplates(deps) && s.id in streams && HasPath(AllNeeds(streams, deps), s, k)
    ensures exists l: nat :: l >= k && HasPath(AllNeeds(streams, deps), Evaluate(s.id), l)
  {
    var needs := AllNeeds(streams, deps);
    OwnPaths(streams, deps, s.id);
    if s.Extend? {
      PathTwo(needs, Evaluate(s.id), s, k);
    } else if s.Invoke? {
      PathTwo(needs, Extend(s.id), s, k);
      PathTwo(needs, Evaluate(s.id), Extend(s.id), k + 1);
    } else if s.Terminate? {
      var p :| Walk(needs, p) && p[0] == s && |p| == k + 1;
      RanksFall(streams, deps, p);
    }
  }

  /** The table holds the layer of the evaluation. */
  lemma TableHoldsEvaluation(order: seq<seq<ComputeStep>>, streams: seq<nat>, deps: seq<D.Dep>, id: nat)
    requires OrderOf(order, streams, deps) && id in streams
    ensures id in TableOf(order) && InLayer(order, Evaluate(id), TableOf(order)[id])
    ensures LongestPath(AllNeeds(streams, deps), Evaluate(id), TableOf(order)[id])
  {
    var needs := AllNeeds(streams, deps);
    var l: nat :| InLayer(order, Evaluate(id), l);
    assert StepInLayer(order, id, l);
    TableHoldsLast(order, id);
    var k := TableOf(order)[id];
    var s :| s in order[k] && s.id == id;
    assert InLayer(order, s, k);
    EvaluationIsLast(streams, deps, s, k);
  }

  lemma TableKeys(order: seq<seq<ComputeStep>>, streams: seq<nat>, deps: seq<D.Dep>, id: nat)
    requires OrderOf(order, streams, deps)
    ensures id in TableOf(order) <==> id in streams
  {
    if id in streams {
      TableHoldsEvaluation(order, streams, deps, id);
    }
    if id in TableOf(order) {
      TableHoldsLast(order, id);
      var k := TableOf(order)[id];
      var s :| s in order[k] && s.id == id;
      assert InLayer(order, s, k);
    }
  }

  /** A stream is in a later layer than every stream whose current value it reads. */
  lemma ReadersComeLater(order: seq<seq<ComputeStep>>, streams: seq<nat>, deps: seq<D.Dep>, reader: nat, target: nat)
    requires OrderOf(order, streams, deps) && (reader, target) in D.SameInstantLinks(deps)
    ensures reader in TableOf(order) && target in TableOf(order) && TableOf(order)[target] < TableOf(order)[reader]
  {
    EvaluationLink(streams, deps, reader, target);
    NeedEnds(streams, deps, (Evaluate(reader), Evaluate(target)));
    TableHoldsEvaluation(order, streams, deps, reader);
    TableHoldsEvaluation(order, streams, deps, target);
    PathTwo(AllNeeds(streams, deps), Evaluate(reader), Evaluate(target), TableOf(order)[target]);
  }

  /**
   The order of some streams: built from their computation graph, which is acyclic if their
   same-instant accesses are.
   */
  method DetermineOrder(streams: seq<nat>, deps: seq<D.Dep>) returns (order: seq<seq<ComputeStep>>)
    requires NoDuplicates(streams) && Among(deps, streams) && WithoutTemplates(deps)
    requires Acyclic(D.SameInstantLinks(deps))
    ensures OrderOf(order, streams, deps)
  {
    var graph := BuildComputeGraph(streams, deps);
    AcyclicIffSameInstantAcyclic(streams, deps);
    order := GetComputeOrder(graph);
    OrderIsOf(graph, order, streams, deps);
  }

  lemma OrderIsOf(graph: ComputationGraph, order: seq<seq<ComputeStep>>, streams: seq<nat>, deps: seq<D.Dep>)
    requires NoDuplicates(streams) && Among(deps, streams) && WithoutTemplates(deps)
    requires WellShaped(graph) && graph.nodes == AllSteps(streams) && Needs(graph) == AllNeeds(streams, deps)
    requires Rounds(order, Steps(graph), Needs(graph)) && Remaining(Steps(graph), Needs(graph), |order|) == {}
    ensures OrderOf(order, streams, deps)
  {
    assert Steps(graph) == Elements(AllSteps(streams));
    NeedsClosed(streams, deps, Steps(graph));
    LayerIsLongestPath(order, Steps(graph), Needs(graph));
    forall s ensures s in Steps(graph) <==> s.id in streams {
      AllStepsMembers(streams, s);
    }
  }
}
