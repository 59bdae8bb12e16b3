/**
 Which accesses occur in an expression: what the interpreter may read, and the edges of the dependency
 graph, are exactly these.
 */
module Accesses {
  import opened Values
  import opened Expressions
  import opened Graphs
  import opened Lowering
  import D = Dependencies
  import Pruning
  import Reachability

  /** Some part of the expression, or the whole, has the property. */
  ghost predicate Has(e: Expr, occurs: Expr -> bool)
    decreases e
  {
    || occurs(e)
    || (match e
        case ArithLog(_, operands) => exists i :: 0 <= i < |operands| && Has(operands[i], occurs)
        case Ite(a, b, d) => Has(a, occurs) || Has(b, occurs) || Has(d, occurs)
        case TupleExpr(elements) => exists i :: 0 <= i < |elements| && Has(elements[i], occurs)
        case TupleAccess(tuple, _) => Has(tuple, occurs)
        case Function(_, args) => exists i :: 0 <= i < |args| && Has(args[i], occurs)
        case Convert(_, _, inner) => Has(inner, occurs)
        case Default(inner, default) => Has(inner, occurs) || Has(default, occurs)
        case _ => false)
  }

  ghost predicate HasAny(es: seq<Expr>, occurs: Expr -> bool) {
    exists i :: 0 <= i < |es| && Has(es[i], occurs)
  }

  lemma HasFirst(es: seq<Expr>, occurs: Expr -> bool)
    ensures HasAny(es, occurs) <==> es != [] && (Has(es[0], occurs) || HasAny(es[1..], occurs))
  {
    if i :| 0 <= i < |es| && Has(es[i], occurs) {
      assert i > 0 ==> Has(es[1..][i - 1], occurs);
    }
    if es != [] && HasAny(es[1..], occurs) {
      var i :| 0 <= i < |es| - 1 && Has(es[1..][i], occurs);
      assert Has(es[i + 1], occurs);
    }
  }

  // ---------- reads ----------

  predicate IsAccess(e: Expr, a: Access) {
    match a
    case Now(x) => e.StreamAccess? && e.target == x
    case Past(x, k) => e == OffsetLookup(x, PastDiscreteOffset(k))
    case Window(w) => e == WindowLookup(w)
  }

  ghost function AccessTo(a: Access): Expr -> bool {
    e => IsAccess(e, a)
  }

  ghost function SyncAccessTo(x: StreamRef): Expr -> bool {
    e => e == StreamAccess(x, Sync)
  }

  /** The interpreter may read exactly what occurs in the expression. */
  lemma {:induction false} ReadsExact(e: Expr, a: Access)
    ensures a in Reads(e) <==> Has(e, AccessTo(a))
    decreases e, 1
  {
    match e
    case LoadConstant(_) =>
    case ArithLog(_, operands) => ReadsAllExact(operands, a);
    case OffsetLookup(_, _) =>
    case StreamAccess(_, _) =>
    case WindowLookup(_) =>
    case Ite(x, y, z) =>
      ReadsExact(x, a);
      ReadsExact(y, a);
      ReadsExact(z, a);
    case TupleExpr(elements) => ReadsAllExact(elements, a);
    case TupleAccess(tuple, _) => ReadsExact(tuple, a);
    case Function(_, args) => ReadsAllExact(args, a);
    case Convert(_, _, inner) => ReadsExact(inner, a);
    case Default(inner, default) =>
      ReadsExact(inner, a);
      ReadsExact(default, a);
  }

  lemma {:induction false} ReadsAllExact(es: seq<Expr>, a: Access)
    ensures a in ReadsAll(es) <==> HasAny(es, AccessTo(a))
    decreases es, 0
  {
    HasFirst(es, AccessTo(a));
    if es != [] {
      ReadsExact(es[0], a);
      ReadsAllExact(es[1..], a);
    }
  }

  /** And synchronously exactly what is accessed so. */
  lemma {:induction false} SyncReadsExact(e: Expr, x: StreamRef)
    ensures x in SyncReads(e) <==> Has(e, SyncAccessTo(x))
    decreases e, 1
  {
    match e
    case LoadConstant(_) =>
    case ArithLog(_, operands) => SyncReadsAllExact(operands, x);
    case OffsetLookup(_, _) =>
    case StreamAccess(_, _) =>
    case WindowLookup(_) =>
    case Ite(a, b, d) =>
      SyncReadsExact(a, x);
      SyncReadsExact(b, x);
      SyncReadsExact(d, x);
    case TupleExpr(elements) => SyncReadsAllExact(elements, x);
    case TupleAccess(tuple, _) => SyncReadsExact(tuple, x);
    case Function(_, args) => SyncReadsAllExact(args, x);
    case Convert(_, _, inner) => SyncReadsExact(inner, x);
    case Default(inner, default) =>
      SyncReadsExact(inner, x);
      SyncReadsExact(default, x);
  }

  lemma {:induction false} SyncReadsAllExact(es: seq<Expr>, x: StreamRef)
    ensures x in SyncReadsAll(es) <==> HasAny(es, SyncAccessTo(x))
    decreases es, 0
  {
    HasFirst(es, SyncAccessTo(x));
    if es != [] {
      SyncReadsExact(es[0], x);
      SyncReadsAllExact(es[1..], x);
    }
  }

  // ---------- edges ----------

  /** The edge of one access: inputs are the first nodes, outputs follow; a window stands for its target. */
  ghost predicate IsEdge(names: D.Naming, node: nat, e: Expr, d: D.Dep) {
    && d.src == node && d.weight.Access? && d.weight.location == D.Expression
    && match e
       case StreamAccess(x, _) => d.dst == Node(names, x) && d.weight.offset == D.Discrete(0)
       case OffsetLookup(x, PastDiscreteOffset(u)) => d.dst == Node(names, x)
           && d.weight.offset == D.Discrete(-(u as int))
       case OffsetLookup(x, FutureDiscreteOffset(u)) => d.dst == Node(names, x) && d.weight.offset == D.Discrete(u)
       case OffsetLookup(x, PastRealTimeOffset(_)) => d.dst == Node(names, x) && d.weight.offset == D.Time(D.UpToNow)
       case OffsetLookup(x, FutureRealTimeOffset(_)) => d.dst == Node(names, x) && d.weight.offset == D.Time(D.Future)
       case WindowLookup(w) =>
         w < |names.windows| && d.dst == Node(names, names.windows[w]) && d.weight.offset == D.SlidingWindow
       case _ => false
  }

  ghost function AccessOf(names: D.Naming, node: nat, d: D.Dep): Expr -> bool {
    e => IsEdge(names, node, e, d)
  }

  function Node(names: D.Naming, x: StreamRef): nat {
    if x.InRef? then x.ix else names.inputs + x.ix
  }

  /** The edges of an expression are exactly those of the accesses in it, projections read as their entries. */
  lemma {:induction false} EdgesExact(names: D.Naming, e: Expr, node: nat, d: D.Dep)
    ensures d in D.EdgesOf(names, e, node) <==> Has(Pruning.Prune(e), AccessOf(names, node, d))
    decreases e, 1
  {
    match e
    case LoadConstant(_) =>
    case ArithLog(_, operands) => EdgesAllExact(names, operands, node, d);
    case OffsetLookup(_, _) => LookupEdge(names, e, node, d);
    case StreamAccess(_, _) => LookupEdge(names, e, node, d);
    case WindowLookup(_) => LookupEdge(names, e, node, d);
    case Ite(a, b, c) =>
      EdgesExact(names, a, node, d);
      EdgesExact(names, b, node, d);
      EdgesExact(names, c, node, d);
    case TupleExpr(elements) => EdgesAllExact(names, elements, node, d);
    case TupleAccess(tuple, num) =>
      if tuple.TupleExpr? && num < |tuple.elements| {
        EdgesExact(names, tuple.elements[num], node, d);
      } else {
        EdgesExact(names, tuple, node, d);
      }
    case Function(_, args) => EdgesAllExact(names, args, node, d);
    case Convert(_, _, inner) => EdgesExact(names, inner, node, d);
    case Default(inner, default) =>
      EdgesExact(names, inner, node, d);
      EdgesExact(names, default, node, d);
  }

  lemma LookupEdge(names: D.Naming, e: Expr, node: nat, d: D.Dep)
    requires e.OffsetLookup? || e.StreamAccess? || e.WindowLookup?
    ensures d in D.EdgesOf(names, e, node) <==> IsEdge(names, node, e, d)
  {
    var edges := D.EdgesOf(names, e, node);
    assert edges != [] ==> (d in edges <==> d == edges[0]);
  }

  lemma {:induction false} EdgesAllExact(names: D.Naming, es: seq<Expr>, node: nat, d: D.Dep)
    ensures d in D.EdgesOfAll(names, es, node)
            <==> HasAny(Pruning.PruneAll(es), AccessOf(names, node, d))
    decreases es, 0
  {
    HasFirst(Pruning.PruneAll(es), AccessOf(names, node, d));
    if es != [] {
      assert Pruning.PruneAll(es)[1..] == Pruning.PruneAll(es[1..]);
      EdgesExact(names, es[0], node, d);
      EdgesAllExact(names, es[1..], node, d);
    }
  }

  // ---------- the graph of a program ----------

  /** The dependency graph has a node per stream, and exactly the edges of the accesses in the outputs. */
  lemma GraphExact(p: Program, d: D.Dep)
    ensures var g, names := DependencyGraph(p), NamesOf(p);
            && g.size == p.inputs + |p.outputs|
            && names.inputs == p.inputs && |names.windows| == |p.windows|
            && (forall w | 0 <= w < |p.windows| :: names.windows[w] == p.windows[w].target)
            && (d in g.edges <==>
                exists o :: 0 <= o < |p.outputs|
                            && Has(Pruning.Prune(p.outputs[o].expr), AccessOf(names, p.inputs + o, d)))
  {
    FirstEdgesExact(p, |p.outputs|, d);
    assert forall o: nat | o < |p.outputs| :: OutputHas(p, o, d) <==>
                                              Has(Pruning.Prune(p.outputs[o].expr),
                                                  AccessOf(NamesOf(p), p.inputs + o, d));
  }

  lemma {:induction false} FirstEdgesExact(p: Program, n: nat, d: D.Dep)
    requires n <= |p.outputs|
    ensures d in EdgesUpTo(p, n) <==> exists o: nat :: o < n && OutputHas(p, o, d)
  {
    if n > 0 {
      FirstEdgesExact(p, n - 1, d);
      EdgesUpToNext(p, n, d);
      OwnEdgesExact(p, n - 1, d);
    }
  }

  /** The access that the edge stands for occurs in the output. */
  ghost predicate OutputHas(p: Program, o: nat, d: D.Dep) {
    o < |p.outputs| && Has(Pruning.Prune(p.outputs[o].expr), AccessOf(NamesOf(p), p.inputs + o, d))
  }

  lemma OwnEdgesExact(p: Program, o: nat, d: D.Dep)
    requires o < |p.outputs|
    ensures d in OwnEdges(p, o) <==> OutputHas(p, o, d)
  {
    EdgesExact(NamesOf(p), p.outputs[o].expr, p.inputs + o, d);
  }

  /** An access to a future value, which the layers cannot order. */
  predicate IsFutureLookup(e: Expr) {
    && e.OffsetLookup?
    && (e.offset.FutureRealTimeOffset? || (e.offset.FutureDiscreteOffset? && e.offset.u > 0))
  }

  ghost function FutureLookup(): Expr -> bool {
    e => IsFutureLookup(e)
  }

  lemma {:induction false} HasMore(e: Expr, some: Expr -> bool, more: Expr -> bool)
    requires Has(e, some) && forall sub :: some(sub) ==> more(sub)
    ensures Has(e, more)
    decreases e
  {
    if !some(e) {
      match e
      case ArithLog(_, operands) =>
        var i :| 0 <= i < |operands| && Has(operands[i], some);
        HasMore(operands[i], some, more);
      case Ite(a, b, d) => HasMore(if Has(a, some) then a else if Has(b, some) then b else d, some, more);
      case TupleExpr(elements) =>
        var i :| 0 <= i < |elements| && Has(elements[i], some);
        HasMore(elements[i], some, more);
      case TupleAccess(tuple, _) => HasMore(tuple, some, more);
      case Function(_, args) =>
        var i :| 0 <= i < |args| && Has(args[i], some);
        HasMore(args[i], some, more);
      case Convert(_, _, inner) => HasMore(inner, some, more);
      case Default(inner, default) => HasMore(if Has(inner, some) then inner else default, some, more);
      case _ =>
    }
  }

  ghost function Exactly(part: Expr): Expr -> bool {
    e => e == part
  }

  /** What has the property is a part of the expression. */
  lemma {:induction false} SomePart(e: Expr, occurs: Expr -> bool) returns (part: Expr)
    requires Has(e, occurs)
    ensures occurs(part) && Has(e, Exactly(part))
    decreases e
  {
    if occurs(e) {
      part := e;
    } else {
      match e
      case ArithLog(_, operands) =>
        var i :| 0 <= i < |operands| && Has(operands[i], occurs);
        part := SomePart(operands[i], occurs);
      case Ite(a, b, d) => part := SomePart(if Has(a, occurs) then a else if Has(b, occurs) then b else d, occurs);
      case TupleExpr(elements) =>
        var i :| 0 <= i < |elements| && Has(elements[i], occurs);
        part := SomePart(elements[i], occurs);
      case TupleAccess(tuple, _) => part := SomePart(tuple, occurs);
      case Function(_, args) =>
        var i :| 0 <= i < |args| && Has(args[i], occurs);
        part := SomePart(args[i], occurs);
      case Convert(_, _, inner) => part := SomePart(inner, occurs);
      case Default(inner, default) => part := SomePart(if Has(inner, occurs) then inner else default, occurs);
    }
  }

  lemma FutureEdge(names: D.Naming, node: nat, e: Expr) returns (d: D.Dep)
    requires IsFutureLookup(e)
    ensures IsEdge(names, node, e, d) && d.src == node && Reachability.FutureAccess(d.weight)
  {
    var offset := if e.offset.FutureDiscreteOffset? then D.Discrete(e.offset.u) else D.Time(D.Future);
    d := Edge(node, Node(names, e.target), D.Access(D.Expression, offset));
  }

  /** Which streams access a future value themselves: the outputs with such a lookup that is not projected away. */
  lemma FutureExact(p: Program, o: nat)
    requires o < |p.outputs|
    ensures Reachability.DirectlyFutureDependent(DependencyGraph(p), p.inputs + o)
            <==> Has(Pruning.Prune(p.outputs[o].expr), FutureLookup())
  {
    var g, e := DependencyGraph(p), Pruning.Prune(p.outputs[o].expr);
    if Reachability.DirectlyFutureDependent(g, p.inputs + o) {
      var i :| 0 <= i < |g.edges| && g.edges[i].src == p.inputs + o && Reachability.FutureAccess(g.edges[i].weight);
      var d := g.edges[i];
      GraphExact(p, d);
      var q :| 0 <= q < |p.outputs| && Has(Pruning.Prune(p.outputs[q].expr), AccessOf(NamesOf(p), p.inputs + q, d));
      SourceOf(p, q, d);
      HasMore(e, AccessOf(NamesOf(p), p.inputs + o, d), FutureLookup());
    }
    if Has(e, FutureLookup()) {
      var part := SomePart(e, FutureLookup());
      var d := FutureEdge(NamesOf(p), p.inputs + o, part);
      HasMore(e, Exactly(part), AccessOf(NamesOf(p), p.inputs + o, d));
      GraphExact(p, d);
    }
  }

  lemma SourceOf(p: Program, q: nat, d: D.Dep)
    requires q < |p.outputs| && Has(Pruning.Prune(p.outputs[q].expr), AccessOf(NamesOf(p), p.inputs + q, d))
    ensures d.src == p.inputs + q
  {
    var part := SomePart(Pruning.Prune(p.outputs[q].expr), AccessOf(NamesOf(p), p.inputs + q, d));
  }

  lemma InputsHaveNoEdges(p: Program, i: nat)
    requires i < p.inputs
    ensures !Reachability.DirectlyFutureDependent(DependencyGraph(p), i)
  {
    var g := DependencyGraph(p);
    forall j | 0 <= j < |g.edges| ensures g.edges[j].src >= p.inputs {
      GraphExact(p, g.edges[j]);
      var q :| 0 <= q < |p.outputs|
               && Has(Pruning.Prune(p.outputs[q].expr), AccessOf(NamesOf(p), p.inputs + q, g.edges[j]));
      SourceOf(p, q, g.edges[j]);
    }
  }
}
