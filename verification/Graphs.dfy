/** Directed multigraphs, walks and acyclicity. */
module Graphs {
  import opened Sequences

  datatype Edge<W> = Edge(src: nat, dst: nat, weight: W)

  datatype Graph<W> = Graph(size: nat, edges: seq<Edge<W>>)

  predicate ValidGraph<W>(g: Graph<W>) {
    forall i | 0 <= i < |g.edges| :: g.edges[i].src < g.size && g.edges[i].dst < g.size
  }

  predicate Linked<W>(g: Graph<W>, u: nat, v: nat) {
    exists i :: 0 <= i < |g.edges| && g.edges[i].src == u && g.edges[i].dst == v
  }

  // ---------- relations on nodes ----------

  function Links<W>(g: Graph<W>): set<(nat, nat)> {
    set i | 0 <= i < |g.edges| :: (g.edges[i].src, g.edges[i].dst)
  }

  /** A walk follows links; a single node is a walk. */
  ghost predicate Walk<T>(r: set<(T, T)>, p: seq<T>) {
    p != [] && forall i | 0 <= i < |p| - 1 :: (p[i], p[i + 1]) in r
  }

  ghost predicate Reaches<T(!new)>(r: set<(T, T)>, u: T, v: T) {
    exists p :: Walk(r, p) && p[0] == u && p[|p| - 1] == v
  }

  /** No walk of at least one link returns to its start. */
  ghost predicate Acyclic<T(!new)>(r: set<(T, T)>) {
    forall p | Walk(r, p) && |p| >= 2 :: p[0] != p[|p| - 1]
  }

  /** Fewer links make no new cycles. */
  lemma AcyclicPart<T(!new)>(part: set<(T, T)>, whole: set<(T, T)>)
    requires part <= whole && Acyclic(whole)
    ensures Acyclic(part)
  {
    forall p | Walk(part, p) && |p| >= 2 ensures p[0] != p[|p| - 1] {
      assert Walk(whole, p);
    }
  }

  lemma WalkPart<T>(r: set<(T, T)>, p: seq<T>, i: nat, j: nat)
    requires Walk(r, p) && i < j <= |p|
    ensures Walk(r, p[i..j])
  {
    var q := p[i..j];
    forall k | 0 <= k < |q| - 1 ensures (q[k], q[k + 1]) in r {
      assert q[k] == p[i + k] && q[k + 1] == p[i + k + 1];
    }
  }

  lemma WalkJoin<T>(r: set<(T, T)>, p: seq<T>, q: seq<T>)
    requires Walk(r, p) && Walk(r, q) && p[|p| - 1] == q[0]
    ensures Walk(r, p + q[1..]) && (p + q[1..])[0] == p[0] && (p + q[1..])[|p + q[1..]| - 1] == q[|q| - 1]
  {
    var w := p + q[1..];
    forall k | 0 <= k < |w| - 1 ensures (w[k], w[k + 1]) in r {
      if k >= |p| - 1 {
        var j := k - (|p| - 1);
        assert w[k] == q[j] && w[k + 1] == q[j + 1];
      }
    }
  }

  lemma ReachesStep<T(!new)>(r: set<(T, T)>, u: T, v: T, w: T)
    requires Reaches(r, u, v) && (v, w) in r
    ensures Reaches(r, u, w)
  {
    var p :| Walk(r, p) && p[0] == u && p[|p| - 1] == v;
    WalkJoin(r, p, [v, w]);
  }

  lemma StepReaches<T(!new)>(r: set<(T, T)>, u: T, v: T, w: T)
    requires (u, v) in r && Reaches(r, v, w)
    ensures Reaches(r, u, w)
  {
    var p :| Walk(r, p) && p[0] == v && p[|p| - 1] == w;
    WalkJoin(r, [u, v], p);
  }

  lemma ReachesSelf<T(!new)>(r: set<(T, T)>, u: T)
    ensures Reaches(r, u, u)
  {
    assert Walk(r, [u]);
  }

  /** In an acyclic relation no node repeats on a walk. */
  lemma AcyclicWalkDistinct<T(!new)>(r: set<(T, T)>, p: seq<T>)
    requires Acyclic(r) && Walk(r, p)
    ensures NoDuplicates(p)
  {
    forall i, j | 0 <= i < j < |p| ensures p[i] != p[j] {
      WalkPart(r, p, i, j + 1);
      var q := p[i..j + 1];
      assert q[0] == p[i] && q[|q| - 1] == p[j];
    }
  }

  /** Links that only go down form no cycle. */
  lemma DescendingAcyclic(links: set<(nat, nat)>)
    requires forall l | l in links :: l.0 > l.1
    ensures Acyclic(links)
  {
    forall w: seq<nat> | Walk(links, w) && |w| >= 2 ensures w[0] != w[|w| - 1] {
      Descends(links, w);
    }
  }

  lemma {:induction false} Descends(links: set<(nat, nat)>, w: seq<nat>)
    requires Walk(links, w) && |w| >= 2 && forall l | l in links :: l.0 > l.1
    ensures w[0] > w[|w| - 1]
  {
    assert (w[0], w[1]) in links;
    if |w| > 2 {
      WalkPart(links, w, 1, |w|);
      Descends(links, w[1..]);
    }
  }
}
