/** Johnson's circuit search with blocking lists: every reported cycle is elementary, and none is reported twice. */
module Cycles {
  import opened Sequences
  import opened Graphs

  /** Consecutive nodes are linked, the last links back to the first, and no node repeats. */
  ghost predicate Elementary<W>(g: Graph<W>, c: seq<nat>) {
    && c != [] && NoDuplicates(c)
    && (forall i | 0 <= i < |c| - 1 :: Linked(g, c[i], c[i + 1]))
    && Linked(g, c[|c| - 1], c[0])
  }

  /** The successors of a node below `n`, in ascending order and without repetition. */
  function Successors<W>(g: Graph<W>, node: nat, n: nat): seq<nat> {
    if n == 0 then [] else Successors(g, node, n - 1) + (if Linked(g, node, n - 1) then [n - 1] else [])
  }

  lemma {:induction false} SuccessorsSorted<W>(g: Graph<W>, node: nat, n: nat)
    ensures forall i | 0 <= i < |Successors(g, node, n)| ::
              Successors(g, node, n)[i] < n && Linked(g, node, Successors(g, node, n)[i])
    ensures NoDuplicates(Successors(g, node, n))
    ensures forall w | 0 <= w < n && Linked(g, node, w) :: w in Successors(g, node, n)
  {
    if n > 0 {
      SuccessorsSorted(g, node, n - 1);
    }
  }

  // ---------- blocking lists ----------

  /** A set that contains, with a node, everything on its blocking list. */
  ghost predicate Closed(lists: seq<seq<nat>>, c: set<nat>) {
    forall u, w | u in c && u < |lists| && w in lists[u] :: w in c
  }

  ghost predicate Within(s: seq<nat>, c: set<nat>) {
    forall w | w in s :: w in c
  }

  /** Every list is a prefix of what it was. */
  ghost predicate Shrunk(lists: seq<seq<nat>>, before: seq<seq<nat>>) {
    && |lists| == |before|
    && forall u | 0 <= u < |lists| :: lists[u] <= before[u]
  }

  lemma ShrunkKeepsClosed(lists: seq<seq<nat>>, before: seq<seq<nat>>, c: set<nat>)
    requires Shrunk(lists, before) && Closed(before, c)
    ensures Closed(lists, c)
  {
    forall u, w | u in c && u < |lists| && w in lists[u] ensures w in c {
      assert w in before[u];
    }
  }

  /** Only blocked nodes have something on their lists, except nodes that are just being unblocked. */
  ghost predicate EmptyUnlessBlocked(blocked: seq<bool>, lists: seq<seq<nat>>, busy: set<nat>)
    requires |blocked| == |lists|
  {
    forall u | 0 <= u < |lists| && !blocked[u] && u !in busy :: lists[u] == []
  }

  ghost predicate InRange(lists: seq<seq<nat>>, n: nat) {
    |lists| == n && forall u, i | 0 <= u < n && 0 <= i < |lists[u]| :: lists[u][i] < n
  }

  /** What unblocking did: it unblocked only nodes in `c` and emptied exactly their lists. */
  ghost predicate Unblocked(blocked: seq<bool>, lists: seq<seq<nat>>, blocked': seq<bool>, lists': seq<seq<nat>>,
                            c: set<nat>) {
    && |blocked| == |lists| == |blocked'| == |lists'|
    && forall u | 0 <= u < |blocked| ::
         if blocked[u] && !blocked'[u] then u in c && lists'[u] == []
         else blocked'[u] == blocked[u] && lists'[u] == lists[u]
  }

  /** When a node was unblocked, so was everything on its list. */
  ghost predicate Released(blocked: seq<bool>, lists: seq<seq<nat>>, blocked': seq<bool>)
    requires |blocked| == |lists| == |blocked'|
  {
    forall u, v | 0 <= u < |blocked| && blocked[u] && !blocked'[u] && v in lists[u] && v < |blocked| :: !blocked'[v]
  }

  /** Releasing also the `m`-th node on the list of `node`. */
  lemma ReleasedNext(blocked0: seq<bool>, lists0: seq<seq<nat>>, node: nat, m: nat, blocked1: seq<bool>,
                     lists1: seq<seq<nat>>, blocked2: seq<bool>)
    requires |blocked0| == |lists0| == |blocked1| == |lists1| == |blocked2| && node < |lists0| && m < |lists0[node]|
    requires Released(blocked0, lists0[node := lists0[node][m + 1..]], blocked1) && !blocked1[node]
    requires forall u | 0 <= u < |blocked0| && blocked1[u] :: blocked0[u] && lists1[u] == lists0[u]
    requires Released(blocked1, lists1, blocked2) && forall u | 0 <= u < |blocked2| && blocked2[u] :: blocked1[u]
    requires lists0[node][m] < |blocked2| && !blocked2[lists0[node][m]]
    ensures Released(blocked0, lists0[node := lists0[node][m..]], blocked2)
  {
    var w, rest := lists0[node][m], lists0[node][m + 1..];
    assert lists0[node][m..] == [w] + rest;
    forall u, v | 0 <= u < |blocked0| && blocked0[u] && !blocked2[u] && v in lists0[node := [w] + rest][u]
        && v < |blocked0|
      ensures !blocked2[v]
    {
      if blocked1[u] {
        assert v in lists1[u];
      } else if v != w {
        assert v in lists0[node := rest][u];
      }
    }
  }

  // ---------- the search stack ----------

  /**
   No node on the stack is reachable through the lists of itself or of a later stack node: `reach[j]`
   is a closed witness.
   */
  ghost predicate Separated(lists: seq<seq<nat>>, stack: seq<nat>, reach: seq<set<nat>>) {
    && |reach| == |stack|
    && (forall j | 0 <= j < |stack| :: Closed(lists, reach[j]))
    && (forall j | 0 <= j < |stack| && stack[j] < |lists| :: Within(lists[stack[j]], reach[j]))
    && forall i, j | 0 <= i <= j < |stack| :: stack[i] !in reach[j]
  }

  /** The stack is a path of blocked nodes. */
  ghost predicate BlockedPath<W>(g: Graph<W>, blocked: seq<bool>, stack: seq<nat>) {
    && NoDuplicates(stack)
    && (forall i | 0 <= i < |stack| :: stack[i] < |blocked| && blocked[stack[i]])
    && forall i | 0 <= i < |stack| - 1 :: Linked(g, stack[i], stack[i + 1])
  }

  /** The lists after `node` has been put on the lists of (some of) `ws`. */
  ghost predicate Extended(lists: seq<seq<nat>>, lists': seq<seq<nat>>, node: nat, ws: seq<nat>) {
    && |lists'| == |lists|
    && forall u | 0 <= u < |lists| :: lists'[u] == lists[u] || (u in ws && lists'[u] == lists[u] + [node])
  }

  function Join(reach: seq<set<nat>>, node: nat): (r: seq<set<nat>>)
    requires reach != []
    ensures |r| == |reach| - 1
  {
    seq(|reach| - 1, j requires 0 <= j < |reach| - 1 => reach[j] + {node} + reach[|reach| - 1])
  }

  /**
   When the top of the stack fails and is put on the lists of its successors, the rest of the stack
   stays separated.
   */
  lemma FailedStaysSeparated(lists: seq<seq<nat>>, lists': seq<seq<nat>>, stack: seq<nat>, reach: seq<set<nat>>,
                             ws: seq<nat>)
    requires stack != [] && NoDuplicates(stack) && Separated(lists, stack, reach)
    requires stack[|stack| - 1] < |lists| && Extended(lists, lists', stack[|stack| - 1], ws)
    ensures Separated(lists', stack[..|stack| - 1], Join(reach, stack[|stack| - 1]))
  {
    var k := |stack| - 1;
    var node, joined := stack[k], Join(reach, stack[k]);
    assert Within(lists[node], reach[k]);
    forall j | 0 <= j < k ensures Closed(lists', joined[j]) {
      forall u, w | u in joined[j] && u < |lists'| && w in lists'[u] ensures w in joined[j] {
        if w != node {
          assert w in lists[u];
        }
      }
    }
  }

  ghost predicate Monotone(before: seq<bool>, after: seq<bool>) {
    |before| == |after| && forall u | 0 <= u < |before| && before[u] :: after[u]
  }

  /** Only nodes of the component become blocked. */
  ghost predicate OnlyInside(before: seq<bool>, after: seq<bool>, scc: seq<nat>) {
    |before| == |after| && forall u | 0 <= u < |before| && after[u] && !before[u] :: u in scc
  }

  ghost predicate AllBlocked(nodes: seq<nat>, node: nat, scc: seq<nat>, blocked: seq<bool>) {
    forall w | w in nodes && w != node && w in scc && w < |blocked| :: blocked[w]
  }

  // ---------- the circuits below a path ----------

  /** A cycle of at least two nodes inside a component; self-loops are reported separately. */
  ghost predicate Circuit<W>(g: Graph<W>, c: seq<nat>, scc: seq<nat>) {
    Elementary(g, c) && |c| >= 2 && forall i | 0 <= i < |c| :: c[i] in scc
  }

  /** The node after `path` on a cycle that goes along it: the start if the cycle closes there. */
  function Next(cycle: seq<nat>, path: seq<nat>): nat
    requires path <= cycle && path != []
  {
    if |cycle| == |path| then path[0] else cycle[|path|]
  }

  /** A circuit along `path` that goes on with one of `seen`. */
  ghost predicate Going<W>(g: Graph<W>, c: seq<nat>, scc: seq<nat>, path: seq<nat>, seen: seq<nat>)
    requires path != []
  {
    Circuit(g, c, scc) && path <= c && Next(c, path) in seen
  }

  /** What was appended to `before` are exactly the circuits along `path` that go on with one of `seen`, each once. */
  ghost predicate Reported<W>(g: Graph<W>, before: seq<seq<nat>>, after: seq<seq<nat>>, scc: seq<nat>, path: seq<nat>,
                              seen: seq<nat>)
    requires path != []
  {
    && before <= after && NoDuplicates(after[|before|..])
    && forall c :: c in after[|before|..] <==> Going(g, c, scc, path, seen)
  }

  lemma ReportedExtend<W>(g: Graph<W>, before: seq<seq<nat>>, mid: seq<seq<nat>>, after: seq<seq<nat>>, scc: seq<nat>,
                          path: seq<nat>, seen: seq<nat>, w: nat)
    requires path != [] && w !in seen
    requires Reported(g, before, mid, scc, path, seen) && Reported(g, mid, after, scc, path, [w])
    ensures Reported(g, before, after, scc, path, seen + [w])
  {
    var first, second := mid[|before|..], after[|mid|..];
    var both := first + second;
    assert after[|before|..] == both;
    forall j, k | 0 <= j < |first| <= k < |both| ensures both[j] != both[k] {
      assert both[j] in first && both[k] in second;
    }
    assert both[..|first|] == first && both[|first|..] == second;
    DistinctJoin(first, both);
    forall c ensures c in both <==> Going(g, c, scc, path, seen + [w]) {
      assert c in both <==> c in first || c in second;
    }
  }

  /** The node after the path is a successor of its end. */
  lemma NextIsSuccessor<W>(g: Graph<W>, c: seq<nat>, scc: seq<nat>, path: seq<nat>)
    requires path != [] && Circuit(g, c, scc) && path <= c
    ensures Linked(g, path[|path| - 1], Next(c, path)) && Next(c, path) in scc && Next(c, path) != path[|path| - 1]
  {
    if |c| > |path| {
      assert Linked(g, c[|path| - 1], c[|path|]);
    }
  }

  /**
   Every blocked node off the stack waits: no successor is the start, and each is blocked with the
   node on its list.
   */
  ghost predicate Waiting<W>(g: Graph<W>, blocked: seq<bool>, lists: seq<seq<nat>>, stack: seq<nat>, start: nat,
                             scc: seq<nat>)
    requires |blocked| == |lists|
  {
    forall v, w | v in scc && w in scc && v != w && Linked(g, v, w) && v < |blocked| && w < |blocked| && blocked[v]
        && v !in stack ::
      w != start && blocked[w] && v in lists[w]
  }

  /** From a waiting node no circuit leads back to the start without meeting the stack. */
  lemma {:induction false} WaitingIsFutile<W>(g: Graph<W>, blocked: seq<bool>, lists: seq<seq<nat>>, stack: seq<nat>,
                                              scc: seq<nat>, c: seq<nat>, i: nat)
    requires ValidGraph(g) && |blocked| == |lists| == g.size && stack != []
    requires Waiting(g, blocked, lists, stack, stack[0], scc)
    requires Circuit(g, c, scc) && stack <= c && |stack| <= i < |c| && c[i] < g.size
    ensures !blocked[c[i]]
    decreases |c| - i
  {
    assert forall k | 0 <= k < |stack| :: stack[k] == c[k];
    var next := if i + 1 == |c| then c[0] else c[i + 1];
    assert Linked(g, c[i], next) && next in scc && c[i] in scc;
    assert c[i] !in stack && next < g.size;
    if i + 1 < |c| {
      WaitingIsFutile(g, blocked, lists, stack, scc, c, i + 1);
    }
  }

  /** Nothing goes on with a node that the search skips. */
  lemma SkippedIsFutile<W>(g: Graph<W>, blocked: seq<bool>, lists: seq<seq<nat>>, stack: seq<nat>, scc: seq<nat>,
                           w: nat)
    requires ValidGraph(g) && |blocked| == |lists| == g.size && stack != []
    requires Waiting(g, blocked, lists, stack, stack[0], scc) && w < g.size
    requires w == stack[|stack| - 1] || w !in scc || (w != stack[0] && blocked[w])
    ensures forall c :: !Going(g, c, scc, stack, [w])
  {
    forall c | Going(g, c, scc, stack, [w]) ensures false {
      NextIsSuccessor(g, c, scc, stack);
      if w != stack[0] && blocked[w] && |c| > |stack| {
        WaitingIsFutile(g, blocked, lists, stack, scc, c, |stack|);
      }
    }
  }

  lemma GoingOn<W>(g: Graph<W>, scc: seq<nat>, path: seq<nat>, w: nat)
    requires path != []
    ensures w == path[0] && Circuit(g, path, scc) ==> forall c :: Going(g, c, scc, path, [w]) <==> c == path
    ensures w != path[0] ==> forall c :: Going(g, c, scc, path, [w]) <==> Circuit(g, c, scc) && path + [w] <= c
  {
    forall c | w == path[0] && Going(g, c, scc, path, [w]) ensures c == path {
      assert c[0] == w && forall i | 0 < i < |c| :: c[i] != c[0];
    }
  }

  /** With all successors seen, the circuits along the path are exactly those reported. */
  lemma ReportedAll<W>(g: Graph<W>, before: seq<seq<nat>>, after: seq<seq<nat>>, scc: seq<nat>, path: seq<nat>,
                       neighbors: seq<nat>)
    requires path != [] && Reported(g, before, after, scc, path, neighbors)
    requires forall w: nat | Linked(g, path[|path| - 1], w) :: w in neighbors
    ensures Below(g, before, after, scc, path)
  {
    forall c | Circuit(g, c, scc) && path <= c ensures Going(g, c, scc, path, neighbors) {
      NextIsSuccessor(g, c, scc, path);
    }
  }

  /** What was appended are exactly the circuits along `path`, each once. */
  ghost predicate Below<W>(g: Graph<W>, before: seq<seq<nat>>, after: seq<seq<nat>>, scc: seq<nat>, path: seq<nat>) {
    && before <= after && NoDuplicates(after[|before|..])
    && forall c :: c in after[|before|..] <==> Circuit(g, c, scc) && path <= c
  }

  class CycleFinder<W> {
    const graph: Graph<W>
    var blocked: seq<bool>
    var bLists: seq<seq<nat>>
    var stack: seq<nat>
    var cycles: seq<seq<nat>>
    ghost var reach: seq<set<nat>>

    constructor (graph: Graph<W>)
      requires ValidGraph(graph)
      ensures this.graph == graph && Valid() && stack == [] && cycles == []
      ensures forall u | 0 <= u < graph.size :: !blocked[u] && bLists[u] == []
    {
      this.graph := graph;
      blocked := seq(graph.size, _ => false);
      bLists := seq(graph.size, _ => []);
      stack, cycles, reach := [], [], [];
    }

    ghost predicate Shape()
      reads this
    {
      && ValidGraph(graph) && |blocked| == graph.size && InRange(bLists, graph.size)
    }

    ghost predicate Valid()
      reads this
    {
      && Shape()
      && EmptyUnlessBlocked(blocked, bLists, {})
      && BlockedPath(graph, blocked, stack)
      && Separated(bLists, stack, reach)
    }

    ghost function BlockedNodes(): set<nat>
      reads this
    {
      set u: nat | u < |blocked| && blocked[u]
    }

    /** How far the list of `node` has been released, compared to the start. */
    ghost predicate Releasing(node: nat, c: set<nat>, blocked0: seq<bool>, lists0: seq<seq<nat>>)
      reads this
    {
      && Shape() && node < graph.size && |blocked0| == |lists0| == graph.size && !blocked[node] && !blocked0[node]
      && bLists[node] <= lists0[node] && Shrunk(bLists, lists0)
      && Unblocked(blocked0, lists0[node := bLists[node]], blocked, bLists, c)
      && Released(blocked0[node := true], lists0[node := lists0[node][|bLists[node]|..]], blocked)
    }

    /** Unblocks a node and, transitively, the nodes on its list. */
    method Unblock(node: nat, ghost c: set<nat>, ghost busy: set<nat>)
      requires Shape() && node < graph.size && blocked[node] && node in c
      requires Closed(bLists, c) && EmptyUnlessBlocked(blocked, bLists, busy)
      modifies this`blocked, this`bLists
      ensures Shape() && !blocked[node]
      ensures Unblocked(old(blocked), old(bLists), blocked, bLists, c)
      ensures Shrunk(bLists, old(bLists))
      ensures Released(old(blocked), old(bLists), blocked)
      decreases BlockedNodes(), 0
    {
      ghost var all := BlockedNodes();
      blocked := blocked[node := false];
      assert BlockedNodes() == all - {node};
      assert old(blocked) == blocked[node := true];
      while bLists[node] != []
        invariant Releasing(node, c, old(blocked)[node := false], old(bLists)) && BlockedNodes() < all
        decreases |bLists[node]|
      {
        ReleaseLast(node, c, busy, old(blocked)[node := false], old(bLists));
      }
    }

    /** Takes the last node off the list of `node`, and unblocks it. */
    method ReleaseLast(node: nat, ghost c: set<nat>, ghost busy: set<nat>, ghost blocked0: seq<bool>,
                       ghost lists0: seq<seq<nat>>)
      requires Releasing(node, c, blocked0, lists0) && bLists[node] != [] && node in c
      requires Closed(lists0, c) && EmptyUnlessBlocked(blocked0[node := true], lists0, busy)
      modifies this`blocked, this`bLists
      ensures Releasing(node, c, blocked0, lists0) && BlockedNodes() <= old(BlockedNodes())
      ensures |bLists[node]| < old(|bLists[node]|)
      decreases BlockedNodes(), 1
    {
      var last := |bLists[node]| - 1;
      var w := bLists[node][last];
      assert w in bLists[node] && w in lists0[node];
      ghost var blocked1 := blocked;
      bLists := bLists[node := bLists[node][..last]];
      ghost var lists1 := bLists;
      if blocked[w] {
        ShrunkKeepsClosed(bLists, lists0, c);
        Unblock(w, c, busy + {node});
      }
      ReleasedNext(blocked0[node := true], lists0, node, last, blocked1, lists1, blocked);
    }

    ghost predicate Searching(scc: seq<nat>)
      reads this
    {
      && Valid() && stack != []
      && (forall u | u in scc :: u < graph.size)
      && (forall u | u in stack :: u in scc)
      && Waiting(graph, blocked, bLists, stack, stack[0], scc)
    }

    /** Puts an unblocked node on the stack. */
    method Push(node: nat)
      requires Valid() && node < graph.size && !blocked[node]
      requires stack != [] ==> Linked(graph, stack[|stack| - 1], node)
      modifies this`stack, this`blocked, this`reach
      ensures Valid() && stack == old(stack) + [node] && blocked == old(blocked)[node := true]
    {
      stack := stack + [node];
      blocked := blocked[node := true];
      reach := reach + [{}];
      assert bLists[node] == [];
    }

    /** Reports the stack as a cycle. */
    method CloseCycle(scc: seq<nat>)
      requires Searching(scc) && |stack| >= 2 && Linked(graph, stack[|stack| - 1], stack[0])
      modifies this`cycles
      ensures cycles == old(cycles) + [stack] && Circuit(graph, stack, scc)
    {
      cycles := cycles + [stack];
    }

    /**
     The top of the stack closed a cycle: it is unblocked and leaves the stack, and the rest of the
     stack stays blocked.
     */
    method UnblockTop(ghost scc: seq<nat>)
      requires Searching(scc)
      modifies this`stack, this`blocked, this`bLists, this`reach
      ensures Valid() && stack == old(stack[..|stack| - 1])
      ensures Waiting(graph, blocked, bLists, stack, old(stack)[0], scc)
      ensures forall u | 0 <= u < graph.size && blocked[u] :: old(blocked)[u]
    {
      var k := |stack| - 1;
      var node := stack[k];
      ghost var lists := bLists;
      Unblock(node, reach[k] + {node}, {});
      forall j | 0 <= j < |stack| ensures Closed(bLists, reach[j]) && Within(bLists[stack[j]], reach[j]) {
        ShrunkKeepsClosed(bLists, lists, reach[j]);
        assert bLists[stack[j]] <= lists[stack[j]];
      }
      ghost var whole := stack;
      stack, reach := stack[..k], reach[..k];
      assert forall v | v in whole && v != node :: v in stack;
    }

    /**
     The top of the stack closed no cycle: it stays blocked, waits on the lists of its successors and
     leaves the stack.
     */
    method BlockTop(neighbors: seq<nat>, scc: seq<nat>)
      requires Searching(scc)
      requires forall w: nat :: Linked(graph, stack[|stack| - 1], w) ==> w in neighbors
      requires AllBlocked(neighbors, stack[|stack| - 1], scc, blocked) && (stack[0] in neighbors ==> |stack| == 1)
      modifies this`stack, this`bLists, this`reach
      ensures Valid() && stack == old(stack[..|stack| - 1])
      ensures Waiting(graph, blocked, bLists, stack, old(stack)[0], scc)
    {
      var k := |stack| - 1;
      var node := stack[k];
      for i := 0 to |neighbors|
        invariant stack == old(stack) && reach == old(reach) && blocked == old(blocked)
        invariant Shape() && EmptyUnlessBlocked(blocked, bLists, {})
        invariant Extended(old(bLists), bLists, node, neighbors[..i])
        invariant forall w | w in neighbors[..i] && w != node && w in scc :: node in bLists[w]
      {
        var w := neighbors[i];
        if w != node && w in scc && node !in bLists[w] {
          assert w !in neighbors[..i];
          bLists := bLists[w := bLists[w] + [node]];
        }
      }
      FailedStaysSeparated(old(bLists), bLists, stack, reach, neighbors);
      FailedWaits(old(bLists), neighbors, scc);
      reach := Join(reach, node);
      stack := stack[..k];
    }

    lemma FailedWaits(lists: seq<seq<nat>>, neighbors: seq<nat>, scc: seq<nat>)
      requires stack != [] && |blocked| == |bLists| == |lists|
      requires Waiting(graph, blocked, lists, stack, stack[0], scc)
      requires Extended(lists, bLists, stack[|stack| - 1], neighbors)
      requires AllBlocked(neighbors, stack[|stack| - 1], scc, blocked) && (stack[0] in neighbors ==> |stack| == 1)
      requires forall w: nat :: Linked(graph, stack[|stack| - 1], w) ==> w in neighbors
      requires forall w | w in neighbors && w != stack[|stack| - 1] && w in scc && w < |bLists| ::
                 stack[|stack| - 1] in bLists[w]
      ensures Waiting(graph, blocked, bLists, stack[..|stack| - 1], stack[0], scc)
    {
      var k := |stack| - 1;
      forall v, w | v in scc && w in scc && v != w && Linked(graph, v, w) && v < |blocked| && w < |blocked|
          && blocked[v] && v !in stack[..k]
        ensures w != stack[0] && blocked[w] && v in bLists[w]
      {
        if v != stack[k] {
          assert stack == stack[..k] + [stack[k]];
          assert v in lists[w];
        }
      }
    }

    /**
     The search has dealt with the successors `seen` of the end of `path`, starting from the given
     cycles and blocked nodes.
     */
    ghost predicate Explored(cycles0: seq<seq<nat>>, blocked0: seq<bool>, path: seq<nat>, scc: seq<nat>, seen: seq<nat>,
                             found: bool)
      reads this
    {
      && Searching(scc) && stack == path
      && Reported(graph, cycles0, cycles, scc, path, seen)
      && OnlyInside(blocked0, blocked, scc)
      && (!found ==>
            && Monotone(blocked0, blocked)
            && AllBlocked(seen, path[|path| - 1], scc, blocked) && (path[0] in seen ==> |path| == 1))
    }

    /** The body of the loop over the successors of the top of the stack. */
    method Visit(w: nat, start: nat, scc: seq<nat>, found: bool, ghost cycles0: seq<seq<nat>>,
                 ghost blocked0: seq<bool>, ghost seen: seq<nat>)
      returns (found': bool)
      requires Explored(cycles0, blocked0, stack, scc, seen, found)
      requires w !in seen && w < graph.size && Linked(graph, stack[|stack| - 1], w) && start == stack[0]
      modifies this
      ensures Explored(cycles0, blocked0, old(stack), scc, seen + [w], found')
      decreases graph.size - |stack|, 1
    {
      found' := found;
      ghost var before := cycles;
      GoingOn(graph, scc, stack, w);
      if w != stack[|stack| - 1] && w in scc && w == start {
        CloseCycle(scc);
        found' := true;
      } else if w != stack[|stack| - 1] && w in scc && !blocked[w] {
        var below := GetElementaryCircuits(w, start, scc);
        found' := found || below;
      } else {
        SkippedIsFutile(graph, blocked, bLists, stack, scc, w);
      }
      ReportedExtend(graph, cycles0, before, cycles, scc, stack, seen, w);
    }

    /** Puts a node on the stack, with none of its successors explored. */
    method Enter(node: nat, ghost start: nat, ghost scc: seq<nat>)
      requires Valid() && node in scc && (forall u | u in scc :: u < graph.size) && forall u | u in stack :: u in scc
      requires !blocked[node] && start == (stack + [node])[0]
      requires stack != [] ==> Linked(graph, stack[|stack| - 1], node)
      requires Waiting(graph, blocked, bLists, stack, start, scc)
      modifies this`stack, this`blocked, this`reach
      ensures stack == old(stack) + [node] && blocked == old(blocked)[node := true]
      ensures Explored(cycles, blocked, stack, scc, [], false)
      ensures |stack| <= graph.size
    {
      Push(node);
      Pigeonhole(stack, graph.size);
      assert cycles[|cycles|..] == [];
    }

    /** The loop over the successors of the top of the stack. */
    method VisitAll(neighbors: seq<nat>, start: nat, scc: seq<nat>, ghost cycles0: seq<seq<nat>>,
                    ghost blocked0: seq<bool>) returns (found: bool)
      requires Explored(cycles0, blocked0, stack, scc, [], false)
      requires NoDuplicates(neighbors) && start == stack[0]
      requires forall w | w in neighbors :: w < graph.size && Linked(graph, stack[|stack| - 1], w)
      modifies this
      ensures Explored(cycles0, blocked0, old(stack), scc, neighbors, found)
      decreases graph.size - |stack|, 2
    {
      found := false;
      Pigeonhole(stack, graph.size);
      for i := 0 to |neighbors|
        invariant Explored(cycles0, blocked0, old(stack), scc, neighbors[..i], found)
      {
        assert neighbors[..i + 1] == neighbors[..i] + [neighbors[i]] && neighbors[i] in neighbors;
        found := Visit(neighbors[i], start, scc, found, cycles0, blocked0, neighbors[..i]);
      }
      assert neighbors[..|neighbors|] == neighbors;
    }

    /** The top of the stack leaves it. */
    method Leave(neighbors: seq<nat>, scc: seq<nat>, found: bool, ghost cycles0: seq<seq<nat>>,
                 ghost blocked0: seq<bool>)
      requires Explored(cycles0, blocked0, stack, scc, neighbors, found)
      requires forall w: nat :: Linked(graph, stack[|stack| - 1], w) ==> w in neighbors
      modifies this`stack, this`blocked, this`bLists, this`reach
      ensures Valid() && stack == old(stack[..|stack| - 1])
      ensures Waiting(graph, blocked, bLists, stack, old(stack)[0], scc)
      ensures OnlyInside(blocked0, blocked, scc)
      ensures !found ==> Monotone(blocked0, blocked)
    {
      if found {
        UnblockTop(scc);
      } else {
        BlockTop(neighbors, scc);
      }
    }

    /** The search below `node`: it reports exactly the circuits along the stack and `node`. */
    method GetElementaryCircuits(node: nat, start: nat, scc: seq<nat>) returns (found: bool)
      requires Valid() && node in scc && (forall u | u in scc :: u < graph.size) && forall u | u in stack :: u in scc
      requires !blocked[node] && start == (stack + [node])[0]
      requires stack != [] ==> Linked(graph, stack[|stack| - 1], node)
      requires Waiting(graph, blocked, bLists, stack, start, scc)
      modifies this
      ensures Valid() && stack == old(stack)
      ensures Below(graph, old(cycles), cycles, scc, old(stack) + [node])
      ensures Waiting(graph, blocked, bLists, stack, start, scc)
      ensures !found ==> blocked[node] && Monotone(old(blocked), blocked)
      ensures OnlyInside(old(blocked), blocked, scc)
      decreases graph.size - |stack|, 0
    {
      ghost var path, blocked0 := stack + [node], blocked[node := true];
      Enter(node, start, scc);
      var neighbors := Successors(graph, node, graph.size);
      SuccessorsSorted(graph, node, graph.size);
      found := VisitAll(neighbors, start, scc, old(cycles), blocked0);
      ReportedAll(graph, old(cycles), cycles, scc, path, neighbors);
      Leave(neighbors, scc, found, old(cycles), blocked0);
      assert path[..|path| - 1] == old(stack);
    }

    /** The whole search: circuits from the least node of every component, then the self-loops. */
    method GetElementaryCycles(components: seq<seq<nat>>)
      requires Valid() && stack == [] && cycles == [] && forall u | 0 <= u < graph.size :: !blocked[u]
      requires Components(components, graph.size)
      modifies this
      ensures NoDuplicates(cycles)
      ensures forall c :: c in cycles <==> FromLeast(graph, components, c) || SelfLoop(graph, c)
    {
      for i := 0 to |components|
        invariant Valid() && stack == [] && NoDuplicates(cycles)
        invariant forall c :: c in cycles <==> FromLeast(graph, components[..i], c)
        invariant forall j, u | i <= j < |components| && u in components[j] :: !blocked[u]
      {
        var start := Least(components[i]);
        ghost var before := cycles;
        var _ := GetElementaryCircuits(start, start, components[i]);
        NextComponent(graph, components, i, before, cycles);
      }
      assert components[..|components|] == components;
      ghost var circuits := cycles;
      for v := 0 to graph.size
        invariant NoDuplicates(cycles)
        invariant forall c :: c in cycles <==> c in circuits || (SelfLoop(graph, c) && c[0] < v)
      {
        assert forall c: seq<nat> | |c| == 1 && c[0] == v :: c == [v];
        if Linked(graph, v, v) {
          assert [v] !in cycles;
          cycles := cycles + [[v]];
        }
      }
    }
  }

  ghost predicate SelfLoop<W>(g: Graph<W>, c: seq<nat>) {
    |c| == 1 && Linked(g, c[0], c[0])
  }

  /** A circuit inside a component that starts at the component's least node. */
  ghost predicate FromLeast<W>(g: Graph<W>, components: seq<seq<nat>>, c: seq<nat>) {
    exists j :: 0 <= j < |components| && StartsLeast(g, components[j], c)
  }

  ghost predicate StartsLeast<W>(g: Graph<W>, component: seq<nat>, c: seq<nat>) {
    component != [] && Circuit(g, c, component) && c[0] == Least(component)
  }

  /** What the component computation promises: nonempty disjoint lists of nodes. */
  ghost predicate Components(components: seq<seq<nat>>, size: nat) {
    && (forall j | 0 <= j < |components| :: components[j] != [] && forall u | u in components[j] :: u < size)
    && forall i, j, u | 0 <= i < j < |components| && u in components[i] :: u !in components[j]
  }

  function Least(s: seq<nat>): (m: nat)
    requires s != []
    ensures m in s && forall u | u in s :: m <= u
  {
    if |s| == 1 then s[0] else
    var m := Least(s[1..]);
    assert s == [s[0]] + s[1..];
    if s[0] <= m then s[0] else m
  }

  lemma NextComponent<W>(g: Graph<W>, components: seq<seq<nat>>, i: nat, before: seq<seq<nat>>, after: seq<seq<nat>>)
    requires Components(components, g.size) && i < |components| && NoDuplicates(before)
    requires forall c :: c in before <==> FromLeast(g, components[..i], c)
    requires Below(g, before, after, components[i], [Least(components[i])])
    ensures NoDuplicates(after)
    ensures forall c :: c in after <==> FromLeast(g, components[..i + 1], c)
  {
    var added := after[|before|..];
    assert after == before + added;
    forall c ensures c in added <==> StartsLeast(g, components[i], c) {
      assert c != [] ==> ([c[0]] <= c && ([Least(components[i])] <= c <==> c[0] == Least(components[i])));
    }
    forall j, k | 0 <= j < |before| <= k < |after| ensures after[j] != after[k] {
      assert before[j] in before && after[k] in added;
      var m :| 0 <= m < i && StartsLeast(g, components[..i][m], before[j]);
      assert before[j][0] in components[m];
    }
    DistinctJoin(before, after);
    forall c ensures c in after <==> FromLeast(g, components[..i + 1], c) {
      assert c in after <==> c in before || c in added;
      if FromLeast(g, components[..i], c) {
        var m :| 0 <= m < i && StartsLeast(g, components[..i][m], c);
        assert components[..i + 1][m] == components[m];
      }
      if StartsLeast(g, components[i], c) {
        assert components[..i + 1][i] == components[i];
      }
      if FromLeast(g, components[..i + 1], c) {
        var m :| 0 <= m < i + 1 && StartsLeast(g, components[..i + 1][m], c);
        assert m < i ==> components[..i][m] == components[m];
      }
    }
  }

  // ---------- which cycles are missed ----------

  function Rotation(c: seq<nat>, i: nat): seq<nat>
    requires i <= |c|
  {
    c[i..] + c[..i]
  }

  lemma RotationIsCircuit<W>(g: Graph<W>, c: seq<nat>, scc: seq<nat>, i: nat)
    requires Circuit(g, c, scc) && i < |c|
    ensures Circuit(g, Rotation(c, i), scc)
  {
    var r := Rotation(c, i);
    forall k | 0 <= k < |r| - 1 ensures Linked(g, r[k], r[k + 1]) {
      if k == |c| - i - 1 {
        assert r[k] == c[|c| - 1] && r[k + 1] == c[0];
      } else if k < |c| - i {
        assert r[k] == c[i + k] && r[k + 1] == c[i + k + 1];
      } else {
        assert r[k] == c[k - (|c| - i)] && r[k + 1] == c[k - (|c| - i) + 1];
      }
    }
    assert r[|r| - 1] == if i == 0 then c[|c| - 1] else c[i - 1];
  }

  ghost predicate SomeRotation(cycles: seq<seq<nat>>, c: seq<nat>) {
    exists i :: 0 <= i < |c| && Rotation(c, i) in cycles
  }

  /**
   A circuit of a component is reported, from one of its nodes, exactly if it passes through the
   component's least node.
   */
  lemma ReportedIffThroughLeast<W>(g: Graph<W>, components: seq<seq<nat>>, cycles: seq<seq<nat>>, c: seq<nat>, j: nat)
    requires Components(components, g.size) && j < |components| && Circuit(g, c, components[j])
    requires forall d :: d in cycles <==> FromLeast(g, components, d) || SelfLoop(g, d)
    ensures SomeRotation(cycles, c) <==> Least(components[j]) in c
  {
    if i :| 0 <= i < |c| && c[i] == Least(components[j]) {
      RotationIsCircuit(g, c, components[j], i);
      assert StartsLeast(g, components[j], Rotation(c, i));
      assert Rotation(c, i) in cycles;
    }
    if i :| 0 <= i < |c| && Rotation(c, i) in cycles {
      var m :| 0 <= m < |components| && StartsLeast(g, components[m], Rotation(c, i));
      assert c[i] == Rotation(c, i)[0] && c[i] in components[j] && c[i] in components[m];
    }
  }

  /** Two nodes in a cycle behind the least node of their component: the search does not report them. */
  lemma CycleMissed(cycles: seq<seq<nat>>)
    ensures var g: Graph<()> := Graph(3, [Edge(0, 1, ()), Edge(1, 0, ()), Edge(1, 2, ()), Edge(2, 1, ())]);
            (forall d :: d in cycles <==> FromLeast(g, [[0, 1, 2]], d) || SelfLoop(g, d)) ==>
              Elementary(g, [1, 2]) && !SomeRotation(cycles, [1, 2])
  {
    var g: Graph<()> := Graph(3, [Edge(0, 1, ()), Edge(1, 0, ()), Edge(1, 2, ()), Edge(2, 1, ())]);
    assert g.edges[2] == Edge(1, 2, ()) && g.edges[3] == Edge(2, 1, ());
    assert Linked(g, 1, 2) && Linked(g, 2, 1);
    if forall d :: d in cycles <==> FromLeast(g, [[0, 1, 2]], d) || SelfLoop(g, d) {
      ReportedIffThroughLeast(g, [[0, 1, 2]], cycles, [1, 2], 0);
    }
  }
}
