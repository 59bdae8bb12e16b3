/** The layering of a computation graph: rounds that remove every node without a remaining dependency. */
module Layering {
  import opened Sequences
  import opened Graphs

  datatype ComputeStep = Invoke(id: nat) | Extend(id: nat) | Evaluate(id: nat) | Terminate(id: nat)

  /** Nodes in a list and edges between their positions. */
  datatype ComputationGraph = ComputationGraph(nodes: seq<ComputeStep>, edges: set<(nat, nat)>)

  ghost predicate WellShaped(g: ComputationGraph) {
    NoDuplicates(g.nodes) && forall e | e in g.edges :: e.0 < |g.nodes| && e.1 < |g.nodes|
  }

  function Steps(g: ComputationGraph): set<ComputeStep> {
    set i | 0 <= i < |g.nodes| :: g.nodes[i]
  }

  ghost function Needs(g: ComputationGraph): set<(ComputeStep, ComputeStep)>
    requires WellShaped(g)
  {
    set e | e in g.edges :: (g.nodes[e.0], g.nodes[e.1])
  }

  // ---------- removing a node ----------

  /** The position of node `j` once node `i` is removed and the last of `n` nodes has taken its place. */
  function Moved(j: nat, i: nat, n: nat): nat {
    if j + 1 == n then i else j
  }

  function RemoveNode(g: ComputationGraph, i: nat): ComputationGraph
    requires i < |g.nodes|
  {
    var last := |g.nodes| - 1;
    ComputationGraph(
      if i == last then g.nodes[..last] else g.nodes[..last][i := g.nodes[last]],
      set e | e in g.edges && e.0 != i && e.1 != i :: (Moved(e.0, i, last + 1), Moved(e.1, i, last + 1)))
  }

  ghost function Without(r: set<(ComputeStep, ComputeStep)>, gone: set<ComputeStep>): set<(ComputeStep, ComputeStep)> {
    set e | e in r && e.0 !in gone && e.1 !in gone
  }

  lemma MovedNodes(g: ComputationGraph, i: nat)
    requires WellShaped(g) && i < |g.nodes|
    ensures |RemoveNode(g, i).nodes| == |g.nodes| - 1 && RemoveNode(g, i).nodes[..i] == g.nodes[..i]
    ensures forall j: nat | j < |g.nodes| && j != i ::
              Moved(j, i, |g.nodes|) < |g.nodes| - 1 && RemoveNode(g, i).nodes[Moved(j, i, |g.nodes|)] == g.nodes[j]
    ensures NoDuplicates(RemoveNode(g, i).nodes) && WellShaped(RemoveNode(g, i))
    ensures Steps(RemoveNode(g, i)) == Steps(g) - {g.nodes[i]}
  {
    var r, n := RemoveNode(g, i), |g.nodes|;
    forall s | s in Steps(g) && s != g.nodes[i] ensures s in Steps(r) {
      var j :| 0 <= j < n && g.nodes[j] == s;
      assert r.nodes[Moved(j, i, n)] == s;
    }
    forall s | s in Steps(r) ensures s in Steps(g) && s != g.nodes[i] {
      var j :| 0 <= j < n - 1 && r.nodes[j] == s;
      assert s == g.nodes[if j == i then n - 1 else j];
    }
  }

  /** Swap-removal removes exactly the node at the position, with its edges, and moves nothing before it. */
  lemma RemoveNodeMeaning(g: ComputationGraph, i: nat)
    requires WellShaped(g) && i < |g.nodes|
    ensures WellShaped(RemoveNode(g, i)) && RemoveNode(g, i).nodes[..i] == g.nodes[..i]
    ensures Steps(RemoveNode(g, i)) == Steps(g) - {g.nodes[i]}
    ensures Needs(RemoveNode(g, i)) == Without(Needs(g), {g.nodes[i]})
  {
    var r, n := RemoveNode(g, i), |g.nodes|;
    MovedNodes(g, i);
    forall e | e in Without(Needs(g), {g.nodes[i]}) ensures e in Needs(r) {
      var d :| d in g.edges && e == (g.nodes[d.0], g.nodes[d.1]);
      assert (Moved(d.0, i, n), Moved(d.1, i, n)) in r.edges;
    }
    forall e | e in Needs(r) ensures e in Without(Needs(g), {g.nodes[i]}) {
      var d :| d in r.edges && e == (r.nodes[d.0], r.nodes[d.1]);
      var c :| c in g.edges && c.0 != i && c.1 != i && d == (Moved(c.0, i, n), Moved(c.1, i, n));
      assert e == (g.nodes[c.0], g.nodes[c.1]);
    }
  }

  // ---------- what remains after some rounds ----------

  /** The steps that remain after `k` rounds: each needs a step that remained before. */
  ghost function Remaining(all: set<ComputeStep>, needs: set<(ComputeStep, ComputeStep)>, k: nat): set<ComputeStep> {
    if k == 0 then all else
    var before := Remaining(all, needs, k - 1);
    set s | s in before && exists t :: t in before && (s, t) in needs
  }

  ghost predicate Closed(all: set<ComputeStep>, needs: set<(ComputeStep, ComputeStep)>) {
    forall e | e in needs :: e.0 in all && e.1 in all
  }

  /** There is a dependency path with `k` links from the step. */
  ghost predicate HasPath(needs: set<(ComputeStep, ComputeStep)>, s: ComputeStep, k: nat) {
    exists p :: Walk(needs, p) && p[0] == s && |p| == k + 1
  }

  ghost predicate LongestPath(needs: set<(ComputeStep, ComputeStep)>, s: ComputeStep, k: nat) {
    HasPath(needs, s, k) && forall l: nat | HasPath(needs, s, l) :: l <= k
  }

  lemma ShorterPath(needs: set<(ComputeStep, ComputeStep)>, s: ComputeStep, k: nat, l: nat)
    requires HasPath(needs, s, l) && k <= l
    ensures HasPath(needs, s, k)
  {
    var p :| Walk(needs, p) && p[0] == s && |p| == l + 1;
    WalkPart(needs, p, 0, k + 1);
  }

  /** A step remains for `k` rounds exactly if a path with `k` links starts at it. */
  lemma {:induction false} RemainingMeansPath(all: set<ComputeStep>, needs: set<(ComputeStep, ComputeStep)>, k: nat,
                                              s: ComputeStep)
    requires Closed(all, needs)
    ensures s in Remaining(all, needs, k) <==> s in all && HasPath(needs, s, k)
    decreases k
  {
    if k == 0 {
      assert Walk(needs, [s]) && [s][0] == s;
    } else {
      RemainingMeansPath(all, needs, k - 1, s);
      if s in all && HasPath(needs, s, k) {
        var p :| Walk(needs, p) && p[0] == s && |p| == k + 1;
        ShorterPath(needs, s, k - 1, k);
        WalkPart(needs, p, 1, k + 1);
        assert (p[0], p[1]) in needs && p[1..][0] == p[1];
        RemainingMeansPath(all, needs, k - 1, p[1]);
      }
      if s in Remaining(all, needs, k) {
        var t :| t in Remaining(all, needs, k - 1) && (s, t) in needs;
        RemainingMeansPath(all, needs, k - 1, t);
        var p :| Walk(needs, p) && p[0] == t && |p| == k - 1 + 1;
        WalkJoin(needs, [s, t], p);
        assert |[s, t] + p[1..]| == k + 1;
      }
    }
  }

  /** The rounds empty the graph exactly if it is acyclic; then as many rounds as there are steps suffice. */
  lemma EmptiesIffAcyclic(all: set<ComputeStep>, needs: set<(ComputeStep, ComputeStep)>)
    requires Closed(all, needs)
    ensures Acyclic(needs) <==> exists k :: Remaining(all, needs, k) == {}
    ensures Acyclic(needs) ==> Remaining(all, needs, |all|) == {}
  {
    if Acyclic(needs) {
      forall s ensures s !in Remaining(all, needs, |all|) {
        RemainingMeansPath(all, needs, |all|, s);
        if s in all && HasPath(needs, s, |all|) {
          PathTooLong(all, needs, s);
        }
      }
      assert Remaining(all, needs, |all|) == {};
    }
    if !Acyclic(needs) {
      var p :| Walk(needs, p) && |p| >= 2 && p[0] == p[|p| - 1];
      forall k: nat ensures Remaining(all, needs, k) != {} {
        CycleRemains(all, needs, p, k, 0);
      }
    }
  }

  lemma PathTooLong(all: set<ComputeStep>, needs: set<(ComputeStep, ComputeStep)>, s: ComputeStep)
    requires Closed(all, needs) && Acyclic(needs) && s in all
    ensures !HasPath(needs, s, |all|)
  {
    forall p | Walk(needs, p) && p[0] == s ensures |p| <= |all| {
      AcyclicWalkDistinct(needs, p);
      forall i | 0 <= i < |p| ensures p[i] in all {
        assert i > 0 ==> (p[i - 1], p[i]) in needs;
      }
      DistinctFits(p, all);
    }
  }

  /** The steps of a cycle are never removed: on a cyclic graph the rounds never end. */
  lemma {:induction false} CycleRemains(all: set<ComputeStep>, needs: set<(ComputeStep, ComputeStep)>,
                                        p: seq<ComputeStep>, k: nat, i: nat)
    requires Closed(all, needs) && Walk(needs, p) && |p| >= 2 && p[0] == p[|p| - 1] && i < |p|
    ensures p[i] in Remaining(all, needs, k)
    decreases k
  {
    var next := if i + 1 == |p| then 1 else i + 1;
    assert (p[next - 1], p[next]) in needs && p[next - 1] == p[i];
    if k > 0 {
      CycleRemains(all, needs, p, k - 1, i);
      CycleRemains(all, needs, p, k - 1, next);
    }
  }

  lemma RemainsTooLong(all: set<ComputeStep>, needs: set<(ComputeStep, ComputeStep)>, k: nat, s: ComputeStep)
    requires Closed(all, needs) && Acyclic(needs)
    ensures s !in Remaining(all, needs, k + |all|)
  {
    RemainingMeansPath(all, needs, k + |all|, s);
    if s in all && HasPath(needs, s, k + |all|) {
      ShorterPath(needs, s, |all|, k + |all|);
      PathTooLong(all, needs, s);
      assert false;
    }
  }

  /** A nonempty acyclic rest has a front. */
  lemma FrontExists(all: set<ComputeStep>, needs: set<(ComputeStep, ComputeStep)>, k: nat)
    requires Closed(all, needs) && Acyclic(needs) && Remaining(all, needs, k) != {}
    ensures Remaining(all, needs, k + 1) < Remaining(all, needs, k)
  {
    if Remaining(all, needs, k + 1) == Remaining(all, needs, k) {
      SameForever(all, needs, k, k + |all|);
      var s :| s in Remaining(all, needs, k);
      RemainsTooLong(all, needs, k, s);
      assert false;
    }
  }

  lemma {:induction false} SameForever(all: set<ComputeStep>, needs: set<(ComputeStep, ComputeStep)>, k: nat, l: nat)
    requires k <= l && Remaining(all, needs, k + 1) == Remaining(all, needs, k)
    ensures Remaining(all, needs, l) == Remaining(all, needs, k)
    decreases l
  {
    if l > k {
      SameForever(all, needs, k, l - 1);
    }
  }

  // ---------- the layering loop ----------

  /** The positions of the nodes without a dependency in the graph, ascending. */
  function Front(g: ComputationGraph, n: nat): seq<nat>
    requires n <= |g.nodes|
  {
    if n == 0 then [] else
    Front(g, n - 1) + if exists e :: e in g.edges && e.0 == n - 1 then [] else [n - 1]
  }

  ghost predicate Ascending(s: seq<nat>) {
    forall i, j | 0 <= i < j < |s| :: s[i] < s[j]
  }

  lemma {:induction false} FrontMeaning(g: ComputationGraph, n: nat)
    requires n <= |g.nodes|
    ensures Ascending(Front(g, n)) && forall i | 0 <= i < |Front(g, n)| :: Front(g, n)[i] < n
    ensures forall j: nat :: j in Front(g, n) <==> j < n && !exists e :: e in g.edges && e.0 == j
  {
    if n > 0 {
      FrontMeaning(g, n - 1);
    }
  }

  /** The steps at some positions. */
  function At(g: ComputationGraph, positions: seq<nat>): seq<ComputeStep>
    requires forall i | 0 <= i < |positions| :: positions[i] < |g.nodes|
  {
    seq(|positions|, i requires 0 <= i < |positions| => g.nodes[positions[i]])
  }

  /** Removes the nodes at ascending positions, the last one first. */
  method RemoveAll(g: ComputationGraph, positions: seq<nat>) returns (r: ComputationGraph)
    requires WellShaped(g) && Ascending(positions) && forall i | 0 <= i < |positions| :: positions[i] < |g.nodes|
    ensures WellShaped(r) && Steps(r) == Steps(g) - Elements(At(g, positions))
    ensures Needs(r) == Without(Needs(g), Elements(At(g, positions)))
  {
    r := g;
    var n := |positions|;
    ghost var gone: set<ComputeStep> := {};
    for t := n downto 0
      invariant WellShaped(r) && gone == Elements(At(g, positions)[t..])
      invariant Steps(r) == Steps(g) - gone && Needs(r) == Without(Needs(g), gone)
      invariant forall j | 0 <= j < t :: positions[j] < |r.nodes| && r.nodes[positions[j]] == g.nodes[positions[j]]
    {
      var i := positions[t];
      RemoveNodeMeaning(r, i);
      gone := gone + {r.nodes[i]};
      assert At(g, positions)[t..] == [r.nodes[i]] + At(g, positions)[t + 1..];
      ghost var before := r;
      r := RemoveNode(r, i);
      forall j | 0 <= j < t ensures positions[j] < |r.nodes| && r.nodes[positions[j]] == g.nodes[positions[j]] {
        assert r.nodes[..i][positions[j]] == before.nodes[..i][positions[j]];
      }
    }
    assert At(g, positions)[0..] == At(g, positions);
  }

  /** The layer holds, once each, exactly the steps that are removed in round `k`. */
  ghost predicate Round(layer: seq<ComputeStep>, all: set<ComputeStep>, needs: set<(ComputeStep, ComputeStep)>,
                        k: nat) {
    NoDuplicates(layer) && layer != [] && Elements(layer) == Remaining(all, needs, k) - Remaining(all, needs, k + 1)
  }

  ghost predicate Rounds(order: seq<seq<ComputeStep>>, all: set<ComputeStep>, needs: set<(ComputeStep, ComputeStep)>) {
    forall k | 0 <= k < |order| :: Round(order[k], all, needs, k)
  }

  /** A node is in the front exactly if it does not survive the round. */
  lemma FrontIff(g: ComputationGraph, all: set<ComputeStep>, needs: set<(ComputeStep, ComputeStep)>, k: nat, j: nat)
    requires AfterRounds(g, all, needs, k) && j < |g.nodes|
    ensures (exists e :: e in g.edges && e.0 == j) <==> g.nodes[j] in Remaining(all, needs, k + 1)
  {
    if e :| e in g.edges && e.0 == j {
      assert (g.nodes[j], g.nodes[e.1]) in Needs(g);
      assert g.nodes[j] in Steps(g) && g.nodes[e.1] in Steps(g);
    }
    if g.nodes[j] in Remaining(all, needs, k + 1) {
      var t :| t in Remaining(all, needs, k) && (g.nodes[j], t) in needs;
      assert (g.nodes[j], t) in Needs(g);
      var e :| e in g.edges && (g.nodes[j], t) == (g.nodes[e.0], g.nodes[e.1]);
      assert e.0 == j;
    }
  }

  lemma FrontLeaves(g: ComputationGraph, all: set<ComputeStep>, needs: set<(ComputeStep, ComputeStep)>, k: nat)
    requires AfterRounds(g, all, needs, k)
    ensures var front := Front(g, |g.nodes|);
            Ascending(front) && (forall i | 0 <= i < |front| :: front[i] < |g.nodes|)
            && NoDuplicates(At(g, front)) && Elements(At(g, front))
               == Remaining(all, needs, k) - Remaining(all, needs, k + 1)
  {
    var front := Front(g, |g.nodes|);
    FrontMeaning(g, |g.nodes|);
    forall s | s in Steps(g) && s !in Remaining(all, needs, k + 1) ensures s in Elements(At(g, front)) {
      var j: nat :| j < |g.nodes| && g.nodes[j] == s;
      FrontIff(g, all, needs, k, j);
      assert j in front;
      var i :| 0 <= i < |front| && front[i] == j;
      assert At(g, front)[i] == s;
    }
    forall s | s in Elements(At(g, front)) ensures s in Steps(g) && s !in Remaining(all, needs, k + 1) {
      var i :| 0 <= i < |front| && At(g, front)[i] == s;
      assert front[i] in front;
      FrontIff(g, all, needs, k, front[i]);
    }
  }

  /** The graph after `k` rounds. */
  ghost predicate AfterRounds(g: ComputationGraph, all: set<ComputeStep>, needs: set<(ComputeStep, ComputeStep)>,
                              k: nat) {
    WellShaped(g) && Steps(g) == Remaining(all, needs, k) && Needs(g) == Within(needs, Steps(g))
  }

  ghost function Within(r: set<(ComputeStep, ComputeStep)>, nodes: set<ComputeStep>): set<(ComputeStep, ComputeStep)> {
    set e | e in r && e.0 in nodes && e.1 in nodes
  }

  /** One round: collects the front and removes it. */
  method PruneFront(g: ComputationGraph, ghost all: set<ComputeStep>, ghost needs: set<(ComputeStep, ComputeStep)>,
                    ghost k: nat)
    returns (layer: seq<ComputeStep>, r: ComputationGraph)
    requires AfterRounds(g, all, needs, k)
    ensures AfterRounds(r, all, needs, k + 1)
    ensures NoDuplicates(layer) && Elements(layer) == Remaining(all, needs, k) - Remaining(all, needs, k + 1)
  {
    var pruned := Front(g, |g.nodes|);
    FrontLeaves(g, all, needs, k);
    layer := At(g, pruned);
    r := RemoveAll(g, pruned);
    RestOfNeeds(all, needs, k, Elements(layer));
  }

  lemma RestOfNeeds(all: set<ComputeStep>, needs: set<(ComputeStep, ComputeStep)>, k: nat, gone: set<ComputeStep>)
    requires gone == Remaining(all, needs, k) - Remaining(all, needs, k + 1)
    ensures Remaining(all, needs, k) - gone == Remaining(all, needs, k + 1)
    ensures Without(Within(needs, Remaining(all, needs, k)), gone) == Within(needs, Remaining(all, needs, k + 1))
  {
  }

  lemma NextRound(layer: seq<ComputeStep>, all: set<ComputeStep>, needs: set<(ComputeStep, ComputeStep)>, k: nat)
    requires Closed(all, needs) && Acyclic(needs) && Remaining(all, needs, k) != {}
    requires NoDuplicates(layer) && Elements(layer) == Remaining(all, needs, k) - Remaining(all, needs, k + 1)
    ensures Round(layer, all, needs, k) && Remaining(all, needs, k + 1) < Remaining(all, needs, k)
  {
    FrontExists(all, needs, k);
    var s :| s in Remaining(all, needs, k) && s !in Remaining(all, needs, k + 1);
    assert s in Elements(layer);
  }

  lemma RoundsSnoc(order: seq<seq<ComputeStep>>, layer: seq<ComputeStep>, all: set<ComputeStep>,
                   needs: set<(ComputeStep, ComputeStep)>)
    requires Rounds(order, all, needs) && Round(layer, all, needs, |order|)
    ensures Rounds(order + [layer], all, needs)
  {
    var more := order + [layer];
    forall k | 0 <= k < |more| ensures Round(more[k], all, needs, k) {
      if k < |order| {
        assert more[k] == order[k] && Round(order[k], all, needs, k);
      } else {
        assert more[k] == layer && k == |order|;
      }
    }
  }

  /** Removes empty layers from the end. */
  method DropEmptyLayers<T>(order: seq<seq<T>>) returns (r: seq<seq<T>>)
    ensures r <= order && (r != [] ==> r[|r| - 1] != []) && forall k | |r| <= k < |order| :: order[k] == []
  {
    r := order;
    while r != [] && r[|r| - 1] == []
      invariant r <= order && forall k | |r| <= k < |order| :: order[k] == []
    {
      r := r[..|r| - 1];
    }
  }

  lemma StartOfRounds(g: ComputationGraph)
    requires WellShaped(g)
    ensures AfterRounds(g, Steps(g), Needs(g), 0) && Closed(Steps(g), Needs(g))
  {
    forall e | e in Needs(g) ensures e.0 in Steps(g) && e.1 in Steps(g) {
      var d :| d in g.edges && e == (g.nodes[d.0], g.nodes[d.1]);
    }
    assert Within(Needs(g), Steps(g)) == Needs(g);
  }

  lemma NodesLeft(g: ComputationGraph)
    ensures |g.nodes| > 0 <==> Steps(g) != {}
  {
    if |g.nodes| > 0 {
      assert g.nodes[0] in Steps(g);
    }
  }

  /** One round of the layering: the front is a layer. */
  method NextLayer(g: ComputationGraph, ghost all: set<ComputeStep>, ghost needs: set<(ComputeStep, ComputeStep)>,
                   order: seq<seq<ComputeStep>>)
    returns (order': seq<seq<ComputeStep>>, r: ComputationGraph)
    requires Closed(all, needs) && Acyclic(needs) && AfterRounds(g, all, needs, |order|) && Rounds(order, all, needs)
    requires Steps(g) != {}
    ensures AfterRounds(r, all, needs, |order'|) && Rounds(order', all, needs) && Steps(r) < Steps(g)
  {
    var layer;
    layer, r := PruneFront(g, all, needs, |order|);
    NextRound(layer, all, needs, |order|);
    RoundsSnoc(order, layer, all, needs);
    order' := order + [layer];
  }

  lemma LayerNotEmpty(order: seq<seq<ComputeStep>>, all: set<ComputeStep>, needs: set<(ComputeStep, ComputeStep)>,
                      k: nat)
    requires Rounds(order, all, needs) && k < |order|
    ensures order[k] != []
  {
    assert Round(order[k], all, needs, k);
  }

  lemma LastRoundKept(order: seq<seq<ComputeStep>>, kept: seq<seq<ComputeStep>>, all: set<ComputeStep>,
                      needs: set<(ComputeStep, ComputeStep)>)
    requires Rounds(order, all, needs) && kept <= order && forall k | |kept| <= k < |order| :: order[k] == []
    ensures kept == order
  {
    if |kept| < |order| {
      LayerNotEmpty(order, all, needs, |kept|);
    }
  }

  /**
   The layering: while nodes remain, the front becomes a layer and is removed; empty layers at the
   end are dropped.
   */
  method GetComputeOrder(graph: ComputationGraph) returns (order: seq<seq<ComputeStep>>)
    requires WellShaped(graph) && Acyclic(Needs(graph))
    ensures Rounds(order, Steps(graph), Needs(graph)) && Remaining(Steps(graph), Needs(graph), |order|) == {}
  {
    ghost var all, needs := Steps(graph), Needs(graph);
    var g := graph;
    order := [];
    StartOfRounds(graph);
    NodesLeft(g);
    while |g.nodes| > 0
      invariant AfterRounds(g, all, needs, |order|) && Rounds(order, all, needs)
      invariant |g.nodes| > 0 <==> Steps(g) != {}
      decreases Steps(g)
    {
      order, g := NextLayer(g, all, needs, order);
      NodesLeft(g);
    }
    var kept := DropEmptyLayers(order);
    LastRoundKept(order, kept, all, needs);
    order := kept;
  }

  ghost predicate InLayer(order: seq<seq<ComputeStep>>, s: ComputeStep, k: nat) {
    k < |order| && s in order[k]
  }

  /**
   Every step is in exactly one layer, and the number of that layer is the length of the longest
   dependency path from the step.
   */
  lemma LayerIsLongestPath(order: seq<seq<ComputeStep>>, all: set<ComputeStep>, needs: set<(ComputeStep, ComputeStep)>)
    requires Closed(all, needs) && Rounds(order, all, needs) && Remaining(all, needs, |order|) == {}
    ensures forall s, k: nat :: InLayer(order, s, k) <==> s in all && LongestPath(needs, s, k)
    ensures forall s | s in all :: exists k: nat :: InLayer(order, s, k)
  {
    forall s, k: nat ensures InLayer(order, s, k) <==> s in all && LongestPath(needs, s, k) {
      RemainingMeansPath(all, needs, k, s);
      RemainingMeansPath(all, needs, k + 1, s);
      RemainingMeansPath(all, needs, |order|, s);
      if k < |order| {
        assert s in order[k] <==> s in Elements(order[k]);
      }
      forall l: nat | HasPath(needs, s, l) && l > k ensures HasPath(needs, s, k + 1) {
        ShorterPath(needs, s, k + 1, l);
      }
      if k >= |order| && HasPath(needs, s, k) {
        ShorterPath(needs, s, |order|, k);
      }
    }
    forall s | s in all ensures exists k: nat :: InLayer(order, s, k) {
      var k := RemovedInSomeRound(all, needs, s, |order|);
      assert s in Elements(order[k]);
      assert InLayer(order, s, k);
    }
  }

  lemma {:induction false} RemovedInSomeRound(all: set<ComputeStep>, needs: set<(ComputeStep, ComputeStep)>,
                                              s: ComputeStep, n: nat) returns (k: nat)
    requires s in all && s !in Remaining(all, needs, n)
    ensures k < n && s in Remaining(all, needs, k) && s !in Remaining(all, needs, k + 1)
  {
    if s in Remaining(all, needs, n - 1) {
      k := n - 1;
    } else {
      k := RemovedInSomeRound(all, needs, s, n - 1);
    }
  }
}
