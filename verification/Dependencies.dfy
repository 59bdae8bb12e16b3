/** The dependency graph of a specification: one node per stream, one edge per access. */
module Dependencies {
  import opened Graphs
  import E = Expressions

  datatype TimeOffset = UpToNow | Future

  datatype Offset = Discrete(offset: int) | Time(time: TimeOffset) | SlidingWindow

  datatype Location = Invoke | Extend | Terminate | Expression

  datatype Dependency = Access(location: Location, offset: Offset) | InvokeByName

  type Dep = Edge<Dependency>

  /** Streams as nodes: inputs first, then outputs and triggers. Window `w` ranges over `windows[w]`. */
  datatype Naming = Naming(inputs: nat, windows: seq<E.StreamRef>)

  function NodeOf(names: Naming, x: E.StreamRef): nat {
    match x
    case InRef(i) => i
    case OutRef(o) => names.inputs + o
  }

  function TranslateOffset(offset: E.Offset): Offset {
    match offset
    case FutureDiscreteOffset(u) => Discrete(u)
    case PastDiscreteOffset(u) => Discrete(-(u as int))
    case FutureRealTimeOffset(_) => Time(Future)
    case PastRealTimeOffset(_) => Time(UpToNow)
  }

  function EdgeTo(names: Naming, node: nat, x: E.StreamRef, offset: Offset): Dep {
    Edge(node, NodeOf(names, x), Access(Expression, offset))
  }

  /** The edges added for an expression; a projection out of a tuple literal only looks at the projected entry. */
  function EdgesOf(names: Naming, e: E.Expr, node: nat): seq<Dep>
    decreases e, 1
  {
    match e
    case LoadConstant(_) => []
    case ArithLog(_, operands) => EdgesOfAll(names, operands, node)
    case OffsetLookup(x, offset) => [EdgeTo(names, node, x, TranslateOffset(offset))]
    case StreamAccess(x, _) => [EdgeTo(names, node, x, Discrete(0))]
    case WindowLookup(w) => if w < |names.windows| then [EdgeTo(names, node, names.windows[w], SlidingWindow)] else []
    case Ite(a, b, c) => EdgesOf(names, a, node) + EdgesOf(names, b, node) + EdgesOf(names, c, node)
    case TupleExpr(elements) => EdgesOfAll(names, elements, node)
    case TupleAccess(tuple, num) =>
      if tuple.TupleExpr? && num < |tuple.elements| then EdgesOf(names, tuple.elements[num], node)
      else EdgesOf(names, tuple, node)
    case Function(_, args) => EdgesOfAll(names, args, node)
    case Convert(_, _, inner) => EdgesOf(names, inner, node)
    case Default(inner, default) => EdgesOf(names, inner, node) + EdgesOf(names, default, node)
  }

  function EdgesOfAll(names: Naming, es: seq<E.Expr>, node: nat): seq<Dep>
    decreases es, 0
  {
    if es == [] then [] else EdgesOf(names, es[0], node) + EdgesOfAll(names, es[1..], node)
  }

  // ---------- edges and reads ----------

  /** The reads the edges of an expression account for. */
  function KeptReads(e: E.Expr): set<E.Access>
    decreases e, 1
  {
    match e
    case LoadConstant(_) => {}
    case ArithLog(_, operands) => KeptReadsAll(operands)
    case OffsetLookup(_, _) => E.Reads(e)
    case StreamAccess(_, _) => E.Reads(e)
    case WindowLookup(_) => E.Reads(e)
    case Ite(a, b, c) => KeptReads(a) + KeptReads(b) + KeptReads(c)
    case TupleExpr(elements) => KeptReadsAll(elements)
    case TupleAccess(tuple, num) =>
      if tuple.TupleExpr? && num < |tuple.elements| then KeptReads(tuple.elements[num]) else KeptReads(tuple)
    case Function(_, args) => KeptReadsAll(args)
    case Convert(_, _, inner) => KeptReads(inner)
    case Default(inner, default) => KeptReads(inner) + KeptReads(default)
  }

  function KeptReadsAll(es: seq<E.Expr>): set<E.Access>
    decreases es, 0
  {
    if es == [] then {} else KeptReads(es[0]) + KeptReadsAll(es[1..])
  }

  /** The edge that accounts for a read. */
  function EdgeOfRead(names: Naming, a: E.Access, node: nat): Dep
    requires a.Window? ==> a.w < |names.windows|
  {
    match a
    case Now(x) => EdgeTo(names, node, x, Discrete(0))
    case Past(x, k) => EdgeTo(names, node, x, Discrete(-(k as int)))
    case Window(w) => EdgeTo(names, node, names.windows[w], SlidingWindow)
  }

  predicate WindowKnown(names: Naming, a: E.Access) {
    a.Window? ==> a.w < |names.windows|
  }

  /** Every kept read of a known stream has its edge. */
  lemma {:induction false} KeptReadsHaveEdges(names: Naming, e: E.Expr, node: nat)
    ensures forall a | a in KeptReads(e) && WindowKnown(names, a) ::
              EdgeOfRead(names, a, node) in EdgesOf(names, e, node)
    decreases e, 1
  {
    match e
    case LoadConstant(_) =>
    case ArithLog(_, operands) => KeptReadsAllHaveEdges(names, operands, node);
    case OffsetLookup(_, _) =>
    case StreamAccess(_, _) =>
    case WindowLookup(_) =>
    case Ite(a, b, c) =>
      KeptReadsHaveEdges(names, a, node);
      KeptReadsHaveEdges(names, b, node);
      KeptReadsHaveEdges(names, c, node);
    case TupleExpr(elements) => KeptReadsAllHaveEdges(names, elements, node);
    case TupleAccess(tuple, num) =>
      if tuple.TupleExpr? && num < |tuple.elements| {
        KeptReadsHaveEdges(names, tuple.elements[num], node);
      } else {
        KeptReadsHaveEdges(names, tuple, node);
      }
    case Function(_, args) => KeptReadsAllHaveEdges(names, args, node);
    case Convert(_, _, inner) => KeptReadsHaveEdges(names, inner, node);
    case Default(inner, default) =>
      KeptReadsHaveEdges(names, inner, node);
      KeptReadsHaveEdges(names, default, node);
  }

  lemma {:induction false} KeptReadsAllHaveEdges(names: Naming, es: seq<E.Expr>, node: nat)
    ensures forall a | a in KeptReadsAll(es) && WindowKnown(names, a) ::
              EdgeOfRead(names, a, node) in EdgesOfAll(names, es, node)
    decreases es, 0
  {
    if es != [] {
      KeptReadsHaveEdges(names, es[0], node);
      KeptReadsAllHaveEdges(names, es[1..], node);
    }
  }

  lemma {:induction false} KeptReadsAreReads(e: E.Expr)
    ensures KeptReads(e) <= E.Reads(e)
    decreases e, 1
  {
    match e
    case LoadConstant(_) =>
    case ArithLog(_, operands) => KeptReadsAllAreReads(operands);
    case OffsetLookup(_, _) =>
    case StreamAccess(_, _) =>
    case WindowLookup(_) =>
    case Ite(a, b, c) =>
      KeptReadsAreReads(a);
      KeptReadsAreReads(b);
      KeptReadsAreReads(c);
    case TupleExpr(elements) => KeptReadsAllAreReads(elements);
    case TupleAccess(tuple, num) =>
      if tuple.TupleExpr? && num < |tuple.elements| {
        KeptReadsAreReads(tuple.elements[num]);
        E.ReadsOfElement(tuple.elements, num);
      } else {
        KeptReadsAreReads(tuple);
      }
    case Function(_, args) => KeptReadsAllAreReads(args);
    case Convert(_, _, inner) => KeptReadsAreReads(inner);
    case Default(inner, default) =>
      KeptReadsAreReads(inner);
      KeptReadsAreReads(default);
  }

  lemma {:induction false} KeptReadsAllAreReads(es: seq<E.Expr>)
    ensures KeptReadsAll(es) <= E.ReadsAll(es)
    decreases es, 0
  {
    if es != [] {
      KeptReadsAreReads(es[0]);
      KeptReadsAllAreReads(es[1..]);
    }
  }

  /** All edges of an expression leave its own node and are direct accesses. */
  lemma {:induction false} EdgesLeaveNode(names: Naming, e: E.Expr, node: nat)
    ensures forall d | d in EdgesOf(names, e, node) ::
              d.src == node && d.weight.Access? && d.weight.location.Expression?
    decreases e, 1
  {
    match e
    case LoadConstant(_) =>
    case ArithLog(_, operands) => EdgesOfAllLeaveNode(names, operands, node);
    case OffsetLookup(_, _) =>
    case StreamAccess(_, _) =>
    case WindowLookup(_) =>
    case Ite(a, b, c) =>
      EdgesLeaveNode(names, a, node);
      EdgesLeaveNode(names, b, node);
      EdgesLeaveNode(names, c, node);
    case TupleExpr(elements) => EdgesOfAllLeaveNode(names, elements, node);
    case TupleAccess(tuple, num) =>
      if tuple.TupleExpr? && num < |tuple.elements| {
        EdgesLeaveNode(names, tuple.elements[num], node);
      } else {
        EdgesLeaveNode(names, tuple, node);
      }
    case Function(_, args) => EdgesOfAllLeaveNode(names, args, node);
    case Convert(_, _, inner) => EdgesLeaveNode(names, inner, node);
    case Default(inner, default) =>
      EdgesLeaveNode(names, inner, node);
      EdgesLeaveNode(names, default, node);
  }

  lemma {:induction false} EdgesOfAllLeaveNode(names: Naming, es: seq<E.Expr>, node: nat)
    ensures forall d | d in EdgesOfAll(names, es, node) ::
              d.src == node && d.weight.Access? && d.weight.location.Expression?
    decreases es, 0
  {
    if es != [] {
      EdgesLeaveNode(names, es[0], node);
      EdgesOfAllLeaveNode(names, es[1..], node);
    }
  }

  // ---------- same-instant accesses ----------

  /** The edge needs the target's value of the same instant. */
  predicate SameInstant(d: Dep) {
    && d.weight.Access?
    && match d.weight.offset
       case Discrete(k) => k == 0
       case Time(t) => t == UpToNow
       case SlidingWindow => d.src != d.dst
  }

  function SameInstantLinks(deps: seq<Dep>): set<(nat, nat)> {
    set i | 0 <= i < |deps| && SameInstant(deps[i]) :: (deps[i].src, deps[i].dst)
  }

  /**
   A link stands for a current value, a real-time access that is not in the future, or a window over
   another stream.
   */
  lemma SameInstantLinksExact(deps: seq<Dep>, l: (nat, nat))
    ensures l in SameInstantLinks(deps) <==>
            exists i :: 0 <= i < |deps| && deps[i].src == l.0 && deps[i].dst == l.1 && LinksNow(deps[i].weight, l)
  {
    if i :| 0 <= i < |deps| && deps[i].src == l.0 && deps[i].dst == l.1 && LinksNow(deps[i].weight, l) {
      assert SameInstant(deps[i]);
    }
    if l in SameInstantLinks(deps) {
      var i :| 0 <= i < |deps| && SameInstant(deps[i]) && l == (deps[i].src, deps[i].dst);
      assert LinksNow(deps[i].weight, l);
    }
  }

  predicate LinksNow(w: Dependency, l: (nat, nat)) {
    w.Access? && (w.offset == Discrete(0) || w.offset == Time(UpToNow) || (w.offset == SlidingWindow && l.0 != l.1))
  }

  // ---------- the weight of a cycle ----------

  datatype CycleWeight = Positive | Zero | Negative

  function TotalOffset(deps: seq<Dep>, path: seq<nat>): int
    requires forall i | 0 <= i < |path| :: path[i] < |deps|
  {
    if path == [] then 0 else
    var w := deps[path[0]].weight;
    (if w.Access? && w.offset.Discrete? then w.offset.offset else 0) + TotalOffset(deps, path[1..])
  }

  /** The offsets along a path add up; real-time accesses and accesses by name have none. */
  lemma {:induction false} OffsetsAddUp(deps: seq<Dep>, p: seq<nat>, q: seq<nat>)
    requires forall i | 0 <= i < |p| :: p[i] < |deps|
    requires forall i | 0 <= i < |q| :: q[i] < |deps|
    ensures TotalOffset(deps, []) == 0
    ensures TotalOffset(deps, p + q) == TotalOffset(deps, p) + TotalOffset(deps, q)
    ensures |p| == 1 && deps[p[0]].weight.Access? && deps[p[0]].weight.offset.Discrete? ==>
              TotalOffset(deps, p) == deps[p[0]].weight.offset.offset
    ensures |p| == 1 && (IsRealTime(deps[p[0]]) || deps[p[0]].weight.InvokeByName?) ==> TotalOffset(deps, p) == 0
  {
    if p == [] {
      assert p + q == q;
    } else {
      assert (p + q)[1..] == p[1..] + q;
      OffsetsAddUp(deps, p[1..], q);
    }
  }

  predicate IsRealTime(d: Dep) {
    d.weight.Access? && !d.weight.offset.Discrete?
  }

  /** Real-time edges make a cycle an error; otherwise the sign of the summed offsets decides. */
  method GetCycleWeight(deps: seq<Dep>, path: seq<nat>) returns (anyRealTime: bool, weight: CycleWeight)
    requires forall i | 0 <= i < |path| :: path[i] < |deps|
    ensures anyRealTime <==> exists i :: 0 <= i < |path| && IsRealTime(deps[path[i]])
    ensures anyRealTime <==>
            exists i :: 0 <= i < |path| && deps[path[i]].weight.Access? && !deps[path[i]].weight.offset.Discrete?
    ensures !anyRealTime ==>
              && (weight == Negative <==> TotalOffset(deps, path) < 0)
              && (weight == Zero <==> TotalOffset(deps, path) == 0)
              && (weight == Positive <==> TotalOffset(deps, path) > 0)
  {
    anyRealTime, weight := exists i :: 0 <= i < |path| && IsRealTime(deps[path[i]]), Zero;
    assert forall i | 0 <= i < |path| :: IsRealTime(deps[path[i]]) ==> !deps[path[i]].weight.offset.Discrete?;
    if !anyRealTime {
      var total := 0;
      for i := 0 to |path|
        invariant total + TotalOffset(deps, path[i..]) == TotalOffset(deps, path)
      {
        assert path[i..][1..] == path[i + 1..];
        var w := deps[path[i]].weight;
        match w
        case InvokeByName =>
        case Access(_, offset) =>
          if offset.Discrete? {
            total := total + offset.offset;
          }
      }
      weight := if total < 0 then Negative else if total == 0 then Zero else Positive;
    }
  }
}
