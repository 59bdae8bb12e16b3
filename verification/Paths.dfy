/** Enumeration of the edge sequences along a node cycle: every combination of parallel edges, each exactly once. */
module Paths {
  import opened Sequences
  import opened Graphs

  /** Edge `e` joins the `k`-th node of the cycle to the next one, wrapping round. */
  predicate Joins<W>(g: Graph<W>, cycle: seq<nat>, k: nat, e: nat)
    requires k < |cycle|
  {
    && e < |g.edges| && g.edges[e].src == cycle[k]
    && g.edges[e].dst == if k + 1 == |cycle| then cycle[0] else cycle[k + 1]
  }

  /** `p` gives, for the nodes from `from` on, one edge each. */
  ghost predicate EdgePath<W>(g: Graph<W>, cycle: seq<nat>, from: nat, p: seq<nat>) {
    from <= |cycle| && |p| == |cycle| - from && forall i | 0 <= i < |p| :: Joins(g, cycle, from + i, p[i])
  }

  /** The stack holds the edges chosen so far, the last node's first. */
  function Reversed<T>(s: seq<T>): (r: seq<T>)
    ensures |r| == |s| && forall i | 0 <= i < |s| :: r[i] == s[|s| - 1 - i]
  {
    if s == [] then [] else [s[|s| - 1]] + Reversed(s[..|s| - 1])
  }

  /**
   The paths appended to `before` are exactly the edge paths that end with `suffix`, each once; edges
   below `bound` were tried for the node before the suffix.
   */
  ghost predicate Appended<W>(g: Graph<W>, cycle: seq<nat>, before: seq<seq<nat>>, after: seq<seq<nat>>,
                              suffix: seq<nat>, bound: nat) {
    && |suffix| <= |cycle| && before <= after && NoDuplicates(after[|before|..])
    && (forall p | p in after[|before|..] :: Extends(g, cycle, p, suffix, bound))
    && forall p | Extends(g, cycle, p, suffix, bound) :: p in after[|before|..]
  }

  ghost predicate Extends<W>(g: Graph<W>, cycle: seq<nat>, p: seq<nat>, suffix: seq<nat>, bound: nat) {
    && EdgePath(g, cycle, 0, p) && |suffix| <= |p| && p[|p| - |suffix|..] == suffix
    && (|suffix| < |p| ==> p[|p| - |suffix| - 1] < bound)
  }

  /** Trying one more edge: the paths through it extend the longer suffix. */
  lemma ExtendsNext<W>(g: Graph<W>, cycle: seq<nat>, p: seq<nat>, suffix: seq<nat>, e: nat)
    requires |suffix| < |cycle|
    ensures Extends(g, cycle, p, suffix, e + 1) <==>
              Extends(g, cycle, p, suffix, e) || Extends(g, cycle, p, [e] + suffix, |g.edges|)
    ensures !(Extends(g, cycle, p, suffix, e) && Extends(g, cycle, p, [e] + suffix, |g.edges|))
    ensures Extends(g, cycle, p, [e] + suffix, |g.edges|) ==> Joins(g, cycle, |cycle| - |suffix| - 1, e)
  {
    if EdgePath(g, cycle, 0, p) {
      var k := |p| - |suffix| - 1;
      assert Joins(g, cycle, 0 + k, p[k]);
      assert p[k..] == [p[k]] + p[k + 1..];
      if p[k..] == [e] + suffix {
        assert p[k] == ([e] + suffix)[0] && p[k + 1..] == ([e] + suffix)[1..];
      }
    }
  }

  lemma AppendedNext<W>(g: Graph<W>, cycle: seq<nat>, before: seq<seq<nat>>, mid: seq<seq<nat>>, after: seq<seq<nat>>,
                        suffix: seq<nat>, e: nat)
    requires |suffix| < |cycle| && Appended(g, cycle, before, mid, suffix, e)
    requires if Joins(g, cycle, |cycle| - |suffix| - 1, e) then Appended(g, cycle, mid, after, [e] + suffix, |g.edges|)
             else after == mid
    ensures Appended(g, cycle, before, after, suffix, e + 1)
  {
    var first, second := mid[|before|..], after[|mid|..];
    assert after[|before|..] == first + second;
    forall p ensures p in first + second <==> Extends(g, cycle, p, suffix, e + 1) {
      ExtendsNext(g, cycle, p, suffix, e);
    }
    var both := first + second;
    forall i, j | 0 <= i < j < |both| ensures both[i] != both[j] {
      if i < |first| <= j {
        ExtendsNext(g, cycle, first[i], suffix, e);
        assert first[i] in first && second[j - |first|] in second;
      }
    }
  }

  class PathEnumerator<W> {
    const graph: Graph<W>
    const cycle: seq<nat>
    var paths: seq<seq<nat>>
    var stack: seq<nat>

    constructor (graph: Graph<W>, cycle: seq<nat>, paths: seq<seq<nat>>)
      ensures this.graph == graph && this.cycle == cycle && this.paths == paths && stack == []
    {
      this.graph, this.cycle, this.paths := graph, cycle, paths;
      stack := [];
    }

    /** Appends every edge path whose edges from node `remaining` on are those on the stack. */
    method EnumeratePaths(remaining: nat)
      requires remaining + |stack| == |cycle| && EdgePath(graph, cycle, remaining, Reversed(stack))
      modifies this
      ensures stack == old(stack)
      ensures Appended(graph, cycle, old(paths), paths, Reversed(stack), |graph.edges|)
      decreases remaining
    {
      ghost var suffix := Reversed(stack);
      if remaining == 0 {
        paths := paths + [Reversed(stack)];
        WholePath(suffix);
        assert paths[|old(paths)|..] == [suffix];
      } else {
        var index := remaining - 1;
        for e := 0 to |graph.edges|
          invariant stack == old(stack)
          invariant Appended(graph, cycle, old(paths), paths, suffix, e)
        {
          ghost var mid := paths;
          if Joins(graph, cycle, index, e) {
            stack := stack + [e];
            PushedEdge(old(stack), e, index);
            EnumeratePaths(index);
            stack := stack[..|stack| - 1];
          }
          AppendedNext(graph, cycle, old(paths), mid, paths, suffix, e);
        }
      }
    }

    lemma WholePath(p: seq<nat>)
      requires EdgePath(graph, cycle, 0, p)
      ensures forall q :: Extends(graph, cycle, q, p, |graph.edges|) <==> q == p
    {
      forall q ensures Extends(graph, cycle, q, p, |graph.edges|) <==> q == p {
        assert |q| == |p| ==> q[|q| - |p|..] == q;
      }
    }

    lemma PushedEdge(s: seq<nat>, e: nat, index: nat)
      requires index + |s| + 1 == |cycle| && EdgePath(graph, cycle, index + 1, Reversed(s))
               && Joins(graph, cycle, index, e)
      ensures Reversed(s + [e]) == [e] + Reversed(s) && EdgePath(graph, cycle, index, Reversed(s + [e]))
    {
      assert (s + [e])[..|s|] == s;
      var p := [e] + Reversed(s);
      forall i | 0 <= i < |p| ensures Joins(graph, cycle, index + i, p[i]) {
        assert i > 0 ==> Joins(graph, cycle, index + 1 + (i - 1), Reversed(s)[i - 1]);
      }
    }
  }

  /** An edge path determines its cycle. */
  lemma CycleOfPath<W>(g: Graph<W>, c: seq<nat>, d: seq<nat>, p: seq<nat>)
    requires EdgePath(g, c, 0, p) && EdgePath(g, d, 0, p)
    ensures c == d
  {
    forall i | 0 <= i < |c| ensures c[i] == d[i] {
      assert Joins(g, c, 0 + i, p[i]) && Joins(g, d, 0 + i, p[i]);
    }
  }

  ghost predicate AlongOneOf<W>(g: Graph<W>, cycles: seq<seq<nat>>, p: seq<nat>) {
    exists c :: c in cycles && EdgePath(g, c, 0, p)
  }

  /** All cyclic edge paths of the given node cycles, each once. */
  method FindAllCyclicPaths<W>(graph: Graph<W>, cycles: seq<seq<nat>>) returns (paths: seq<seq<nat>>)
    requires NoDuplicates(cycles) && forall i | 0 <= i < |cycles| :: cycles[i] != []
    ensures NoDuplicates(paths)
    ensures forall p :: p in paths <==> AlongOneOf(graph, cycles, p)
  {
    paths := [];
    for i := 0 to |cycles|
      invariant NoDuplicates(paths)
      invariant forall p :: p in paths <==> AlongOneOf(graph, cycles[..i], p)
    {
      var enumerator := new PathEnumerator(graph, cycles[i], paths);
      enumerator.EnumeratePaths(|cycles[i]|);
      NextCycle(graph, cycles, i, paths, enumerator.paths);
      paths := enumerator.paths;
    }
    assert cycles[..|cycles|] == cycles;
  }

  lemma NextCycle<W>(g: Graph<W>, cycles: seq<seq<nat>>, i: nat, before: seq<seq<nat>>, after: seq<seq<nat>>)
    requires NoDuplicates(cycles) && i < |cycles| && cycles[i] != [] && NoDuplicates(before)
    requires forall p :: p in before <==> AlongOneOf(g, cycles[..i], p)
    requires Appended(g, cycles[i], before, after, [], |g.edges|)
    ensures NoDuplicates(after)
    ensures forall p :: p in after <==> AlongOneOf(g, cycles[..i + 1], p)
  {
    var added := after[|before|..];
    assert after == before + added && cycles[..i + 1] == cycles[..i] + [cycles[i]];
    forall p ensures p in added <==> EdgePath(g, cycles[i], 0, p) {
      assert EdgePath(g, cycles[i], 0, p) ==> Joins(g, cycles[i], 0 + (|p| - 1), p[|p| - 1]);
      assert Extends(g, cycles[i], p, [], |g.edges|) <==> EdgePath(g, cycles[i], 0, p);
    }
    forall p ensures p in after <==> AlongOneOf(g, cycles[..i + 1], p) {
      assert p in after <==> p in before || p in added;
      assert cycles[i] in cycles[..i + 1];
    }
    forall j, k | 0 <= j < |before| <= k < |after| ensures after[j] != after[k] {
      assert before[j] in before && after[k] in added;
      var c :| c in cycles[..i] && EdgePath(g, c, 0, before[j]);
      if before[j] == after[k] {
        CycleOfPath(g, c, cycles[i], after[k]);
        assert false;
      }
    }
    DistinctJoin(before, after);
  }
}
