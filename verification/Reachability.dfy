/**
 Two reachability colourings of the dependency graph: the inputs a stream needs, and the streams that
 need the future.
 */
module Reachability {
  import opened Sequences
  import opened Graphs
  import opened Dependencies

  function Below(n: nat): (r: set<nat>)
    ensures forall v: nat :: v in r <==> v < n
  {
    if n == 0 then {} else Below(n - 1) + {n - 1}
  }

  ghost function Nodes<W>(g: Graph<W>): set<nat> {
    Below(g.size)
  }

  /** With a node, the set contains everything that accesses it. */
  ghost predicate PredecessorClosed<W>(g: Graph<W>, some: set<nat>, all: set<nat>) {
    forall i | 0 <= i < |g.edges| && g.edges[i].dst in some :: g.edges[i].src in all
  }

  /** A closed set contains everything that reaches one of its nodes. */
  lemma {:induction false} ClosedUnderReach<W>(g: Graph<W>, all: set<nat>, p: seq<nat>)
    requires PredecessorClosed(g, all, all) && Walk(Links(g), p) && p[|p| - 1] in all
    ensures p[0] in all
  {
    if |p| >= 2 {
      WalkPart(Links(g), p, 1, |p|);
      ClosedUnderReach(g, all, p[1..]);
      assert (p[0], p[1]) in Links(g);
    }
  }

  // ---------- required inputs ----------

  /** The lists after `input` was added to those of the nodes in `visited` other than itself. */
  ghost predicate AddedTo(deps: seq<seq<nat>>, deps': seq<seq<nat>>, input: nat, visited: set<nat>) {
    && |deps'| == |deps|
    && forall v | 0 <= v < |deps| :: deps'[v] == if v in visited && v != input then deps[v] + [input] else deps[v]
  }

  /** The search visited only nodes that reach the input, and all predecessors of those no longer on the stack. */
  ghost predicate Searched<W>(g: Graph<W>, input: nat, visited: set<nat>, stack: seq<nat>) {
    && input in visited && visited <= Nodes(g)
    && (forall v | v in visited :: Reaches(Links(g), v, input))
    && (forall v | v in stack :: v in visited)
    && PredecessorClosed(g, visited - Elements(stack), visited)
  }

  /** Visits the predecessors of `top` that were not seen before. */
  method VisitPredecessors<W>(g: Graph<W>, input: nat, top: nat, ghost deps: seq<seq<nat>>, r: seq<seq<nat>>,
                              seen: set<nat>, stack: seq<nat>)
    returns (r': seq<seq<nat>>, seen': set<nat>, stack': seq<nat>)
    requires ValidGraph(g) && |deps| == g.size && AddedTo(deps, r, input, seen)
             && Exploring(g, input, seen, stack, top, 0)
    ensures AddedTo(deps, r', input, seen') && Exploring(g, input, seen', stack', top, |g.edges|)
    ensures seen <= seen' && (seen' == seen ==> stack' == stack)
  {
    r', seen', stack' := r, seen, stack;
    for i := 0 to |g.edges|
      invariant seen <= seen' && (seen' == seen ==> stack' == stack)
      invariant AddedTo(deps, r', input, seen') && Exploring(g, input, seen', stack', top, i)
    {
      if g.edges[i].dst == top && g.edges[i].src !in seen' {
        var dependent := g.edges[i].src;
        VisitExplores(g, input, seen', stack', top, i);
        VisitAdds(deps, r', input, seen', dependent);
        r' := r'[dependent := r'[dependent] + [input]];
        seen', stack' := seen' + {dependent}, stack' + [dependent];
      } else {
        SkipExplores(g, input, seen', stack', top, i);
      }
    }
  }

  /** Adds `input` to the list of every other node that reaches it, once. */
  method ColorReachable<W>(g: Graph<W>, input: nat, deps: seq<seq<nat>>) returns (r: seq<seq<nat>>)
    requires ValidGraph(g) && input < g.size && |deps| == g.size
    ensures GivenToReachers(g, input, deps, r)
  {
    r := deps;
    var seen, stack := {input}, [input];
    ReachesSelf(Links(g), input);
    while stack != []
      invariant Searched(g, input, seen, stack) && AddedTo(deps, r, input, seen)
      decreases |Nodes(g) - seen|, |stack|
    {
      var top := stack[|stack| - 1];
      ghost var seen0 := seen;
      PopKeeps(g, input, seen, stack);
      r, seen, stack := VisitPredecessors(g, input, top, deps, r, seen, stack[..|stack| - 1]);
      Fewer(g, seen0, seen);
    }
    SearchedAll(g, input, seen);
    assert ReachersOf(g, input, seen);
  }

  ghost predicate ReachersOf<W>(g: Graph<W>, input: nat, nodes: set<nat>) {
    forall v: nat :: v in nodes <==> v < g.size && Reaches(Links(g), v, input)
  }

  /** Exactly the other nodes that reach the input have it added to their lists. */
  ghost predicate GivenToReachers<W>(g: Graph<W>, input: nat, deps: seq<seq<nat>>, r: seq<seq<nat>>) {
    exists nodes :: ReachersOf(g, input, nodes) && AddedTo(deps, r, input, nodes)
  }

  lemma PopKeeps<W>(g: Graph<W>, input: nat, visited: set<nat>, stack: seq<nat>)
    requires Searched(g, input, visited, stack) && stack != []
    ensures Exploring(g, input, visited, stack[..|stack| - 1], stack[|stack| - 1], 0)
  {
    var init, top := stack[..|stack| - 1], stack[|stack| - 1];
    assert stack == init + [top];
    assert visited - Elements(init) - {top} <= visited - Elements(stack);
  }

  lemma SearchedAll<W>(g: Graph<W>, input: nat, visited: set<nat>)
    requires ValidGraph(g) && Searched(g, input, visited, [])
    ensures ReachersOf(g, input, visited)
  {
    assert visited - Elements<nat>([]) == visited;
    forall v: nat | Reaches(Links(g), v, input) ensures v in visited {
      var p :| Walk(Links(g), p) && p[0] == v && p[|p| - 1] == input;
      ClosedUnderReach(g, visited, p);
    }
  }

  /** The search while it looks at the edges into `top`: the first `n` edges are done. */
  ghost predicate Exploring<W>(g: Graph<W>, input: nat, visited: set<nat>, stack: seq<nat>, top: nat, n: nat)
    requires n <= |g.edges|
  {
    && input in visited && visited <= Nodes(g) && top in visited
    && (forall v | v in visited :: Reaches(Links(g), v, input))
    && (forall v | v in stack :: v in visited)
    && PredecessorClosed(g, visited - Elements(stack) - {top}, visited)
    && forall i | 0 <= i < n && g.edges[i].dst == top :: g.edges[i].src in visited
  }

  lemma VisitAdds(deps: seq<seq<nat>>, r: seq<seq<nat>>, input: nat, visited: set<nat>, d: nat)
    requires AddedTo(deps, r, input, visited) && input in visited && d !in visited && d < |r|
    ensures AddedTo(deps, r[d := r[d] + [input]], input, visited + {d})
  {
  }

  lemma SkipExplores<W>(g: Graph<W>, input: nat, visited: set<nat>, stack: seq<nat>, top: nat, i: nat)
    requires i < |g.edges| && Exploring(g, input, visited, stack, top, i)
    requires g.edges[i].dst != top || g.edges[i].src in visited
    ensures Exploring(g, input, visited, stack, top, i + 1)
  {
  }

  lemma VisitExplores<W>(g: Graph<W>, input: nat, visited: set<nat>, stack: seq<nat>, top: nat, i: nat)
    requires ValidGraph(g) && i < |g.edges| && Exploring(g, input, visited, stack, top, i)
    requires g.edges[i].dst == top && g.edges[i].src !in visited
    ensures Exploring(g, input, visited + {g.edges[i].src}, stack + [g.edges[i].src], top, i + 1)
  {
    var d := g.edges[i].src;
    var more := visited + {d};
    LinkReaches(g, i, input);
    assert more - Elements(stack + [d]) - {top} <= visited - Elements(stack) - {top} by {
      assert d in stack + [d];
    }
  }

  lemma LinkReaches<W>(g: Graph<W>, i: nat, input: nat)
    requires i < |g.edges|
    ensures Reaches(Links(g), g.edges[i].dst, input) ==> Reaches(Links(g), g.edges[i].src, input)
  {
    if Reaches(Links(g), g.edges[i].dst, input) {
      assert (g.edges[i].src, g.edges[i].dst) in Links(g);
      StepReaches(Links(g), g.edges[i].src, g.edges[i].dst, input);
    }
  }

  lemma Fewer<W>(g: Graph<W>, before: set<nat>, after: set<nat>)
    requires before <= after <= Nodes(g)
    ensures before == after || |Nodes(g) - after| < |Nodes(g) - before|
  {
    if before != after {
      var v :| v in after && v !in before;
      assert Nodes(g) - before == (Nodes(g) - after) + (after - before);
      assert v in after - before;
    }
  }

  /** The list of every node: the inputs among the first `n` nodes that it reaches, each once. */
  ghost predicate RequiredAmong<W>(g: Graph<W>, inputs: set<nat>, required: seq<seq<nat>>, n: nat) {
    && |required| == g.size
    && forall v: nat | v < g.size ::
         && NoDuplicates(required[v])
         && forall u: nat :: u in required[v] <==> u in inputs && u < n && Reaches(Links(g), v, u)
  }

  /** The inputs every stream needs, directly or not. */
  method DetermineRequiredInputs<W>(g: Graph<W>, inputs: set<nat>) returns (required: seq<seq<nat>>)
    requires ValidGraph(g) && inputs <= Nodes(g)
    ensures RequiredAmong(g, inputs, required, g.size)
  {
    required := seq(g.size, _ => []);
    for node := 0 to g.size
      invariant RequiredAmong(g, inputs, required, node)
    {
      ghost var before := required;
      if node in inputs {
        required := required[node := required[node] + [node]];
        ghost var self := required;
        required := ColorReachable(g, node, required);
        ghost var visited :| ReachersOf(g, node, visited) && AddedTo(self, required, node, visited);
        ColoredMeans(g, inputs, before, self, required, node, visited);
      }
    }
  }

  lemma ColoredMeans<W>(g: Graph<W>, inputs: set<nat>, before: seq<seq<nat>>, self: seq<seq<nat>>, after: seq<seq<nat>>,
                        node: nat, visited: set<nat>)
    requires node < g.size && node in inputs && RequiredAmong(g, inputs, before, node)
    requires self == before[node := before[node] + [node]] && AddedTo(self, after, node, visited)
    requires ReachersOf(g, node, visited)
    ensures RequiredAmong(g, inputs, after, node + 1)
  {
    ReachesSelf(Links(g), node);
    forall v: nat | v < g.size
      ensures NoDuplicates(after[v])
      ensures forall u: nat :: u in after[v] <==> u in inputs && u < node + 1 && Reaches(Links(g), v, u)
    {
      assert after[v] == if v in visited then before[v] + [node] else before[v];
      ListNext(before[v], node);
    }
  }

  lemma ListNext(list: seq<nat>, node: nat)
    requires NoDuplicates(list) && forall u: nat | u in list :: u < node
    ensures NoDuplicates(list + [node])
    ensures forall u: nat :: u in list + [node] <==> u in list || u == node
  {
    var more := list + [node];
    assert more[|list|] == node && forall i | 0 <= i < |list| :: more[i] == list[i] && list[i] in list;
    forall u: nat | u in more ensures u in list || u == node {
      var i :| 0 <= i < |more| && more[i] == u;
    }
  }

  // ---------- future dependence ----------

  /** The stream itself accesses a future value. */
  predicate DirectlyFutureDependent(g: Graph<Dependency>, n: nat) {
    exists i :: 0 <= i < |g.edges| && g.edges[i].src == n && FutureAccess(g.edges[i].weight)
  }

  predicate FutureAccess(w: Dependency) {
    && w.Access?
    && match w.offset
       case Discrete(k) => k > 0
       case Time(t) => t == Future
       case SlidingWindow => false
  }

  /** Marks the node and, recursively, every node that accesses a marked one. */
  method PropagateFutureDependence(g: Graph<Dependency>, marked: set<nat>, node: nat) returns (r: set<nat>)
    requires ValidGraph(g) && marked <= Nodes(g) && node in Nodes(g) - marked
    ensures marked + {node} <= r <= Nodes(g)
    ensures forall v | v in r - marked :: Reaches(Links(g), v, node)
    ensures PredecessorClosed(g, r - marked, r)
    decreases |Nodes(g) - marked|
  {
    r := marked + {node};
    ReachesSelf(Links(g), node);
    Fewer(g, marked, r);
    for i := 0 to |g.edges|
      invariant marked + {node} <= r <= Nodes(g)
      invariant forall v | v in r - marked :: Reaches(Links(g), v, node)
      invariant PredecessorClosed(g, r - marked - {node}, r)
      invariant forall j | 0 <= j < i && g.edges[j].dst == node :: g.edges[j].src in r
    {
      if g.edges[i].dst == node && g.edges[i].src !in r {
        ghost var before := r;
        Fewer(g, marked + {node}, r);
        r := PropagateFutureDependence(g, r, g.edges[i].src);
        assert (g.edges[i].src, node) in Links(g);
        forall v | v in r - before ensures Reaches(Links(g), v, node) {
          ReachesStep(Links(g), v, g.edges[i].src, node);
        }
      }
    }
  }

  ghost predicate FutureDependent(g: Graph<Dependency>, v: nat) {
    exists n: nat :: n < g.size && DirectlyFutureDependent(g, n) && Reaches(Links(g), v, n)
  }

  /** The future-dependent streams are exactly those that reach a stream with a future access. */
  method FutureDependentStreams(g: Graph<Dependency>) returns (marked: set<nat>)
    requires ValidGraph(g)
    ensures forall v: nat :: v in marked <==> FutureDependent(g, v)
  {
    marked := {};
    for n := 0 to g.size
      invariant marked <= Nodes(g) && PredecessorClosed(g, marked, marked)
      invariant forall v | v in marked :: FutureDependent(g, v)
      invariant forall m: nat | m < n && DirectlyFutureDependent(g, m) :: m in marked
    {
      if n !in marked && DirectlyFutureDependent(g, n) {
        marked := PropagateFutureDependence(g, marked, n);
      }
    }
    forall v: nat | FutureDependent(g, v) ensures v in marked {
      var n: nat :| n < g.size && DirectlyFutureDependent(g, n) && Reaches(Links(g), v, n);
      var p :| Walk(Links(g), p) && p[0] == v && p[|p| - 1] == n;
      ClosedUnderReach(g, marked, p);
    }
  }
}
