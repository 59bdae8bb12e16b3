/** How many values of every stream are kept: enough for every discrete offset into the past, and no more. */
module BufferSizes {
  import opened Sequences
  import opened Graphs
  import opened Dependencies
  import opened Stores

  datatype StorageRequirement = Finite(size: nat) | FutureRef(size: nat) | Unlimited

  const OFFSET_LIMIT: int := 0x8000

  /** Discrete offsets are parsed as 16-bit numbers. */
  predicate OffsetsInRange(deps: seq<Dep>) {
    forall i | 0 <= i < |deps| && deps[i].weight.Access? && deps[i].weight.offset.Discrete? ::
      -OFFSET_LIMIT <= deps[i].weight.offset.offset < OFFSET_LIMIT
  }

  /** The cast of an offset's absolute value to 16 bits. */
  function Cast16(k: int): nat {
    k % 0x1_0000
  }

  function Abs(k: int): nat { if k < 0 then -k else k }

  /** The number of values an edge into `n` needs of it. */
  predicate Needs(d: Dep, n: nat, size: nat) {
    d.dst == n && d.weight.Access? && d.weight.offset.Discrete? && d.weight.offset.offset <= 0
    && size == 1 - d.weight.offset.offset
  }

  /** A future access from outside an expression of a future-dependent stream. */
  predicate NeedsAllInputs(d: Dep, future: set<nat>) {
    && d.dst in future && d.weight.Access? && d.weight.offset.Discrete? && d.weight.offset.offset > 0
    && d.weight.location != Expression
  }

  /** The least size of at least one that serves the first `m` edges. */
  ghost predicate LeastSize(deps: seq<Dep>, n: nat, size: nat, m: nat)
    requires m <= |deps|
  {
    && size >= 1
    && (forall i, k: nat | 0 <= i < m && Needs(deps[i], n, k) :: k <= size)
    && (size == 1 || exists i :: 0 <= i < m && Needs(deps[i], n, size))
  }

  /** The storage required for one stream, and whether one of its edges makes all inputs unbounded. */
  method StorageRequired(deps: seq<Dep>, n: nat, isFuture: bool, already: bool) returns (size: nat, storeAll: bool)
    requires OffsetsInRange(deps)
    ensures LeastSize(deps, n, size, |deps|)
    ensures storeAll <==> already || exists i ::
              0 <= i < |deps| && deps[i].dst == n && NeedsAllInputs(deps[i], if isFuture then {n} else {})
  {
    size, storeAll := 1, already;
    for i := 0 to |deps|
      invariant LeastSize(deps, n, size, i)
      invariant storeAll <==> already || exists j ::
                  0 <= j < i && deps[j].dst == n && NeedsAllInputs(deps[j], if isFuture then {n} else {})
    {
      if deps[i].dst == n && deps[i].weight.Access? && deps[i].weight.offset.Discrete? {
        var offset := deps[i].weight.offset.offset;
        if offset <= 0 {
          var needed := 1 + Cast16(Abs(offset));
          assert Needs(deps[i], n, needed);
          if needed > size {
            size := needed;
          }
        }
        if offset > 0 && isFuture && !storeAll && deps[i].weight.location != Expression {
          storeAll := true;
        }
      }
    }
  }

  /** The requirement of every stream; one future access in an auxiliary stream makes every input unbounded. */
  ghost predicate Required(deps: seq<Dep>, future: set<nat>, inputs: set<nat>, n: nat, r: StorageRequirement) {
    if n in inputs && StoreAllInputs(deps, future) then r == Unlimited
    else !r.Unlimited? && LeastSize(deps, n, r.size, |deps|) && (r.FutureRef? <==> n in future)
  }

  ghost predicate StoreAllInputs(deps: seq<Dep>, future: set<nat>) {
    exists i :: 0 <= i < |deps| && NeedsAllInputs(deps[i], future)
  }

  method DetermineBufferSize(g: Graph<Dependency>, future: set<nat>, inputs: set<nat>)
    returns (requirements: seq<StorageRequirement>)
    requires ValidGraph(g) && OffsetsInRange(g.edges)
    ensures |requirements| == g.size && forall n | 0 <= n < g.size ::
              Required(g.edges, future, inputs, n, requirements[n])
  {
    var storeAll := false;
    requirements := [];
    for n := 0 to g.size
      invariant |requirements| == n
      invariant forall m | 0 <= m < n :: SizedAlone(g.edges, future, m, requirements[m])
      invariant storeAll <==> exists i :: 0 <= i < |g.edges| && g.edges[i].dst < n && NeedsAllInputs(g.edges[i], future)
    {
      var size;
      size, storeAll := StorageRequired(g.edges, n, n in future, storeAll);
      requirements := requirements + [if n in future then FutureRef(size) else Finite(size)];
    }
    if storeAll {
      for n := 0 to g.size
        invariant |requirements| == g.size
        invariant forall m | 0 <= m < n :: Required(g.edges, future, inputs, m, requirements[m])
        invariant forall m | n <= m < g.size :: SizedAlone(g.edges, future, m, requirements[m])
      {
        if n in inputs {
          requirements := requirements[n := Unlimited];
        }
      }
    }
  }

  ghost predicate SizedAlone(deps: seq<Dep>, future: set<nat>, n: nat, r: StorageRequirement) {
    !r.Unlimited? && LeastSize(deps, n, r.size, |deps|) && (r.FutureRef? <==> n in future)
  }

  function LowerStorageReq(req: StorageRequirement): MemorizationBound {
    match req
    case Finite(b) => Bounded(b)
    case FutureRef(b) => Bounded(b)
    case Unlimited => Unbounded
  }

  /** The lowered bound has room for every access the edges describe. */
  lemma BoundServes(deps: seq<Dep>, future: set<nat>, inputs: set<nat>, n: nat, r: StorageRequirement, d: Dep, k: nat)
    requires Required(deps, future, inputs, n, r) && d in deps && Needs(d, n, k)
    ensures HasRoom(LowerStorageReq(r), k) && HasRoom(LowerStorageReq(r), 1)
  {
    var i :| 0 <= i < |deps| && deps[i] == d;
  }

  /** A bound is none exactly if it must be; and below a finite one, some access would not be served. */
  lemma BoundTight(deps: seq<Dep>, future: set<nat>, inputs: set<nat>, n: nat, r: StorageRequirement, smaller: nat)
    requires Required(deps, future, inputs, n, r)
    ensures LowerStorageReq(r).Unbounded? <==> r.Unlimited?
    ensures LowerStorageReq(r).Bounded? && 1 <= smaller < LowerStorageReq(r).limit ==>
              exists i, k: nat :: 0 <= i < |deps| && Needs(deps[i], n, k) && !HasRoom(Bounded(smaller), k)
  {
    if !r.Unlimited? && 1 <= smaller < r.size {
      var i :| 0 <= i < |deps| && Needs(deps[i], n, r.size);
      assert !HasRoom(Bounded(smaller), r.size);
    }
  }
}
