/** What the zero-weight check rules out, and what it misses. */
module CycleCheck {
  import opened Sequences
  import opened Graphs
  import opened Cycles
  import opened Paths
  import opened Dependencies

  ghost predicate ValidPath(g: Graph<Dependency>, p: seq<nat>) {
    forall i | 0 <= i < |p| :: p[i] < |g.edges|
  }

  /** A cyclic edge path for which an error is reported: it has a real-time edge, or weight zero. */
  ghost predicate Flagged(g: Graph<Dependency>, p: seq<nat>)
    requires ValidPath(g, p)
  {
    (exists i :: 0 <= i < |p| && IsRealTime(g.edges[p[i]])) || TotalOffset(g.edges, p) == 0
  }

  lemma EdgePathValid(g: Graph<Dependency>, c: seq<nat>, p: seq<nat>)
    requires EdgePath(g, c, 0, p)
    ensures ValidPath(g, p)
  {
    forall i | 0 <= i < |p| ensures p[i] < |g.edges| {
      assert Joins(g, c, 0 + i, p[i]);
    }
  }

  /** No error is reported for any edge path along the cycle. */
  ghost predicate Unflagged(g: Graph<Dependency>, c: seq<nat>) {
    forall p | EdgePath(g, c, 0, p) :: ValidPath(g, p) && !Flagged(g, p)
  }

  // ---------- a same-instant cycle is flagged ----------

  /** A closed walk contains an elementary one. */
  lemma {:induction false} ElementaryPart(r: set<(nat, nat)>, w: seq<nat>) returns (c: seq<nat>)
    requires Walk(r, w) && |w| >= 2 && w[0] == w[|w| - 1]
    ensures c != [] && NoDuplicates(c) && Walk(r, c + [c[0]])
    decreases |w|
  {
    var init := w[..|w| - 1];
    if i, j :| 0 <= i < j < |init| && init[i] == init[j] {
      WalkPart(r, w, i, j + 1);
      c := ElementaryPart(r, w[i..j + 1]);
    } else {
      c := init;
      assert c + [c[0]] == w;
    }
  }

  /** The edges of the same-instant links along a cycle. */
  lemma {:induction false} SameInstantEdges(g: Graph<Dependency>, w: seq<nat>) returns (p: seq<nat>)
    requires Walk(SameInstantLinks(g.edges), w)
    ensures |p| == |w| - 1 && ValidPath(g, p)
    ensures forall i | 0 <= i < |p| ::
              SameInstant(g.edges[p[i]]) && g.edges[p[i]].src == w[i] && g.edges[p[i]].dst == w[i + 1]
    decreases |w|
  {
    if |w| == 1 {
      p := [];
    } else {
      WalkPart(SameInstantLinks(g.edges), w, 1, |w|);
      var rest := SameInstantEdges(g, w[1..]);
      assert (w[0], w[1]) in SameInstantLinks(g.edges);
      var e :| 0 <= e < |g.edges| && SameInstant(g.edges[e]) && (w[0], w[1]) == (g.edges[e].src, g.edges[e].dst);
      p := [e] + rest;
    }
  }

  lemma {:induction false} SameInstantFlagged(g: Graph<Dependency>, p: seq<nat>)
    requires ValidPath(g, p) && forall i | 0 <= i < |p| :: SameInstant(g.edges[p[i]])
    ensures Flagged(g, p)
  {
    if p != [] {
      var rest := p[1..];
      SameInstantFlagged(g, rest);
      if i :| 0 <= i < |rest| && IsRealTime(g.edges[rest[i]]) {
        assert IsRealTime(g.edges[p[i + 1]]);
      }
      assert IsRealTime(g.edges[p[0]]) || TotalOffset(g.edges, p) == TotalOffset(g.edges, rest);
    }
  }

  /** Unless the same-instant accesses are acyclic, some elementary cycle has an edge path that is flagged. */
  lemma SameInstantCycleFlagged(g: Graph<Dependency>) returns (c: seq<nat>, p: seq<nat>)
    requires !Acyclic(SameInstantLinks(g.edges))
    ensures Elementary(g, c) && EdgePath(g, c, 0, p) && ValidPath(g, p) && Flagged(g, p)
    ensures Walk(SameInstantLinks(g.edges), c + [c[0]])
  {
    var w :| Walk(SameInstantLinks(g.edges), w) && |w| >= 2 && w[0] == w[|w| - 1];
    c := ElementaryPart(SameInstantLinks(g.edges), w);
    var closed := c + [c[0]];
    p := SameInstantEdges(g, closed);
    SameInstantFlagged(g, p);
    forall i | 0 <= i < |c| ensures Joins(g, c, 0 + i, p[i]) {
      assert g.edges[p[i]].src == closed[i] && g.edges[p[i]].dst == closed[i + 1];
    }
    forall i | 0 <= i < |c| ensures Linked(g, c[i], if i + 1 == |c| then c[0] else c[i + 1]) {
      assert Joins(g, c, 0 + i, p[i]);
    }
    var last := |c| - 1;
    assert Joins(g, c, 0 + last, p[last]) && closed[last] == c[last];
    assert Linked(g, c[last], c[0]);
  }

  // ---------- rotations ----------

  /** Starting a cyclic path at another node does not change whether it is flagged. */
  lemma RotationFlagged(g: Graph<Dependency>, p: seq<nat>, i: nat)
    requires ValidPath(g, p) && i <= |p|
    ensures ValidPath(g, Rotation(p, i)) && (Flagged(g, Rotation(p, i)) <==> Flagged(g, p))
  {
    var r := Rotation(p, i);
    assert p == p[..i] + p[i..];
    OffsetsAddUp(g.edges, p[..i], p[i..]);
    OffsetsAddUp(g.edges, p[i..], p[..i]);
    forall k | 0 <= k < |p| ensures r[if k < i then |p| - i + k else k - i] == p[k] {
    }
  }

  lemma RotatedEdgePath(g: Graph<Dependency>, c: seq<nat>, p: seq<nat>, i: nat)
    requires EdgePath(g, c, 0, p) && i < |c|
    ensures EdgePath(g, Rotation(c, i), 0, Rotation(p, i))
  {
    var d, q := Rotation(c, i), Rotation(p, i);
    forall k | 0 <= k < |q| ensures Joins(g, d, 0 + k, q[k]) {
      var j := if i + k < |c| then i + k else i + k - |c|;
      assert Joins(g, c, 0 + j, p[j]);
      assert d[k] == c[j] && q[k] == p[j];
    }
  }

  // ---------- the check ----------

  /** Every longer cycle lies in one component, as strongly connected components promise. */
  ghost predicate InOneComponent(g: Graph<Dependency>, components: seq<seq<nat>>) {
    forall c | Elementary(g, c) && |c| >= 2 :: exists j :: 0 <= j < |components| && Circuit(g, c, components[j])
  }

  ghost predicate IsLeast(components: seq<seq<nat>>, u: nat) {
    exists j :: 0 <= j < |components| && components[j] != [] && u == Least(components[j])
  }

  /** The links between nodes that are the least of no component. */
  ghost function BeyondLeast(links: set<(nat, nat)>, components: seq<seq<nat>>): set<(nat, nat)> {
    set l | l in links && !IsLeast(components, l.0) && !IsLeast(components, l.1)
  }

  /** What the search and the enumeration deliver. */
  ghost predicate Enumerated(g: Graph<Dependency>, components: seq<seq<nat>>, cycles: seq<seq<nat>>,
                             paths: seq<seq<nat>>) {
    && Components(components, g.size)
    && (forall c :: c in cycles <==> FromLeast(g, components, c) || SelfLoop(g, c))
    && (forall p :: p in paths <==> AlongOneOf(g, cycles, p))
  }

  /** No error is reported: no edge path along a reported cycle is flagged. */
  ghost predicate NoError(g: Graph<Dependency>, components: seq<seq<nat>>) {
    forall c | FromLeast(g, components, c) || SelfLoop(g, c) :: Unflagged(g, c)
  }

  lemma ReportedNotFlagged(g: Graph<Dependency>, components: seq<seq<nat>>, c: seq<nat>, p: seq<nat>)
    requires NoError(g, components) && EdgePath(g, c, 0, p) && ValidPath(g, p)
    requires FromLeast(g, components, c) || SelfLoop(g, c)
    ensures !Flagged(g, p)
  {
    assert Unflagged(g, c);
  }

  /** A cycle with a flagged edge path does not go through the least node of its component. */
  lemma FlaggedAvoidsLeast(g: Graph<Dependency>, components: seq<seq<nat>>, c: seq<nat>, p: seq<nat>, j: nat)
    requires NoError(g, components) && j < |components| && components[j] != [] && Circuit(g, c, components[j])
    requires EdgePath(g, c, 0, p) && ValidPath(g, p) && Flagged(g, p)
    ensures Least(components[j]) !in c
  {
    if i :| 0 <= i < |c| && c[i] == Least(components[j]) {
      var d := Rotation(c, i);
      RotationIsCircuit(g, c, components[j], i);
      assert StartsLeast(g, components[j], d);
      assert Unflagged(g, d);
      RotatedEdgePath(g, c, p, i);
      RotationFlagged(g, p, i);
    }
  }

  lemma NoLeastOnCycle(g: Graph<Dependency>, components: seq<seq<nat>>, c: seq<nat>, j: nat, u: nat)
    requires Components(components, g.size) && j < |components| && Circuit(g, c, components[j]) && u in c
    requires Least(components[j]) !in c
    ensures !IsLeast(components, u)
  {
    var i :| 0 <= i < |c| && c[i] == u;
    assert u in components[j];
    forall m | 0 <= m < |components| && components[m] != [] ensures u != Least(components[m]) {
      assert Least(components[m]) in components[m];
      assert m != j ==> u !in components[m];
    }
  }

  /** A same-instant cycle in an accepted graph runs entirely between nodes that are least in no component. */
  lemma AcceptedCycleBeyondLeast(g: Graph<Dependency>, components: seq<seq<nat>>)
    requires Components(components, g.size) && InOneComponent(g, components) && NoError(g, components)
    requires !Acyclic(SameInstantLinks(g.edges))
    ensures !Acyclic(BeyondLeast(SameInstantLinks(g.edges), components))
  {
    var links := SameInstantLinks(g.edges);
    var c, p := SameInstantCycleFlagged(g);
    if |c| == 1 {
      ReportedNotFlagged(g, components, c, p);
    }
    var j :| 0 <= j < |components| && Circuit(g, c, components[j]);
    FlaggedAvoidsLeast(g, components, c, p, j);
    var closed := c + [c[0]];
    forall k | 0 <= k < |closed| - 1 ensures (closed[k], closed[k + 1]) in BeyondLeast(links, components) {
      assert closed[k] in c && closed[k + 1] in c;
      NoLeastOnCycle(g, components, c, j, closed[k]);
      NoLeastOnCycle(g, components, c, j, closed[k + 1]);
    }
    assert Walk(BeyondLeast(links, components), closed) && closed[0] == closed[|closed| - 1];
  }

  /**
   What the check guarantees, exactly: in an accepted graph the same-instant accesses are acyclic if
   and only if they are between the streams that are the least of no component.
   */
  lemma AcceptedAcyclicIff(g: Graph<Dependency>, components: seq<seq<nat>>)
    requires Components(components, g.size) && InOneComponent(g, components) && NoError(g, components)
    ensures Acyclic(SameInstantLinks(g.edges)) <==> Acyclic(BeyondLeast(SameInstantLinks(g.edges), components))
  {
    if Acyclic(SameInstantLinks(g.edges)) {
      AcyclicPart(BeyondLeast(SameInstantLinks(g.edges), components), SameInstantLinks(g.edges));
    } else {
      AcceptedCycleBeyondLeast(g, components);
    }
  }

  lemma NoErrorIff(g: Graph<Dependency>, components: seq<seq<nat>>, cycles: seq<seq<nat>>, paths: seq<seq<nat>>)
    requires Enumerated(g, components, cycles, paths) && forall p | p in paths :: ValidPath(g, p)
    ensures NoError(g, components) <==> forall p | p in paths :: !Flagged(g, p)
  {
    if NoError(g, components) {
      forall p | p in paths ensures !Flagged(g, p) {
        var c :| c in cycles && EdgePath(g, c, 0, p);
        assert Unflagged(g, c);
      }
    }
    if forall p | p in paths :: !Flagged(g, p) {
      forall c, p | (FromLeast(g, components, c) || SelfLoop(g, c)) && EdgePath(g, c, 0, p)
        ensures ValidPath(g, p) && !Flagged(g, p)
      {
        assert c in cycles && AlongOneOf(g, cycles, p);
      }
    }
  }

  lemma PathsValid(g: Graph<Dependency>, cycles: seq<seq<nat>>, paths: seq<seq<nat>>)
    requires forall p :: p in paths <==> AlongOneOf(g, cycles, p)
    ensures forall p | p in paths :: ValidPath(g, p)
  {
    forall p | p in paths ensures ValidPath(g, p) {
      var c :| c in cycles && EdgePath(g, c, 0, p);
      EdgePathValid(g, c, p);
    }
  }

  /** The check of all cyclic edge paths of all reported cycles. */
  method CheckCycles(g: Graph<Dependency>, components: seq<seq<nat>>) returns (accepted: bool)
    requires ValidGraph(g) && Components(components, g.size)
    ensures accepted <==> NoError(g, components)
    ensures accepted && InOneComponent(g, components) ==>
              (Acyclic(SameInstantLinks(g.edges)) <==> Acyclic(BeyondLeast(SameInstantLinks(g.edges), components)))
  {
    var finder := new CycleFinder(g);
    finder.GetElementaryCycles(components);
    var cycles := finder.cycles;
    forall i | 0 <= i < |cycles| ensures cycles[i] != [] {
      assert cycles[i] in cycles;
    }
    var paths := FindAllCyclicPaths(g, cycles);
    PathsValid(g, cycles, paths);
    accepted := true;
    for i := 0 to |paths|
      invariant accepted <==> forall j | 0 <= j < i :: !Flagged(g, paths[j])
    {
      assert paths[i] in paths;
      var anyRealTime, weight := GetCycleWeight(g.edges, paths[i]);
      if anyRealTime || weight == Zero {
        accepted := false;
      }
    }
    NoErrorIff(g, components, cycles, paths);
    assert accepted <==> forall p | p in paths :: !Flagged(g, p);
    if accepted && InOneComponent(g, components) {
      AcceptedAcyclicIff(g, components);
    }
  }

  /** Streams 1 and 2 read each other's current value, and stream 0 and stream 1 each other's last value. */
  function MissedGraph(): Graph<Dependency> {
    Graph(3, [Edge(0, 1, Access(Expression, Discrete(-1))), Edge(1, 0, Access(Expression, Discrete(-1))),
              Edge(1, 2, Access(Expression, Discrete(0))), Edge(2, 1, Access(Expression, Discrete(0)))])
  }

  lemma OneComponent()
    ensures InOneComponent(MissedGraph(), [[0, 1, 2]])
  {
    var g := MissedGraph();
    forall c | Elementary(g, c) && |c| >= 2 ensures Circuit(g, c, [[0, 1, 2]][0]) {
      forall i | 0 <= i < |c| ensures c[i] in [0, 1, 2] {
        assert Linked(g, c[i], if i + 1 == |c| then c[0] else c[i + 1]);
      }
    }
  }

  lemma MissedIsCyclic(g: Graph<Dependency>)
    requires g == MissedGraph()
    ensures !Acyclic(SameInstantLinks(g.edges))
  {
    var links := SameInstantLinks(g.edges);
    assert g.edges[2] == Edge(1, 2, Access(Expression, Discrete(0)))
        && g.edges[3] == Edge(2, 1, Access(Expression, Discrete(0)));
    assert (1, 2) in links && (2, 1) in links;
    assert Walk(links, [1, 2, 1]) && [1, 2, 1][0] == [1, 2, 1][2];
  }

  lemma MissedPath(g: Graph<Dependency>, c: seq<nat>, p: seq<nat>)
    requires g == MissedGraph() && c == [0, 1] && EdgePath(g, c, 0, p)
    ensures ValidPath(g, p) && !Flagged(g, p)
  {
    EdgePathValid(g, c, p);
    assert Joins(g, c, 0 + 0, p[0]) && Joins(g, c, 0 + 1, p[1]);
    assert p[0] == 0 && p[1] == 1;
    OffsetsAddUp(g.edges, [0], [1]);
    assert p == [0] + [1];
    assert g.edges[0].weight.offset == Discrete(-1) && g.edges[1].weight.offset == Discrete(-1);
  }

  lemma MissedNoError(g: Graph<Dependency>, components: seq<seq<nat>>)
    requires g == MissedGraph() && components == [[0, 1, 2]]
    ensures NoError(g, components)
  {
    forall c | FromLeast(g, components, c) || SelfLoop(g, c) ensures Unflagged(g, c) {
      MissedCycles(c);
      forall p | EdgePath(g, c, 0, p) ensures ValidPath(g, p) && !Flagged(g, p) {
        MissedPath(g, c, p);
      }
    }
  }

  /**
   Accepted graphs are not acyclic in general: here no error is reported, yet the same-instant
   accesses are cyclic.
   */
  lemma AcceptedButCyclic()
    ensures Components([[0, 1, 2]], 3) && InOneComponent(MissedGraph(), [[0, 1, 2]])
    ensures NoError(MissedGraph(), [[0, 1, 2]]) && !Acyclic(SameInstantLinks(MissedGraph().edges))
  {
    OneComponent();
    MissedNoError(MissedGraph(), [[0, 1, 2]]);
    MissedIsCyclic(MissedGraph());
  }

  /** Only the two streams that read each other's last value are reported as a cycle. */
  lemma MissedCycles(c: seq<nat>)
    requires FromLeast(MissedGraph(), [[0, 1, 2]], c) || SelfLoop(MissedGraph(), c)
    ensures c == [0, 1]
  {
    var g := MissedGraph();
    assert !SelfLoop(g, c);
    assert StartsLeast(g, [0, 1, 2], c) && c[0] == 0;
    assert Linked(g, c[0], c[1]) && c[1] == 1;
    assert Linked(g, c[|c| - 1], c[0]) && c[|c| - 1] == 1;
  }
}
