/** The aggregations of sliding windows: each is lawful, and each folds to its obvious meaning. */
module Aggregations {
  import opened Values
  import opened Windows

  // ---------- number types ----------

  /** How an aggregation reads stream values of its number type; other values are type errors. */
  type Reader<N> = Value -> Outcome<N>

  function ReadUnsigned(v: Value): Outcome<int> {
    if v.Unsigned? then Ok(v.u) else Panic
  }

  /** Signed windows also accept unsigned values. */
  function ReadSigned(v: Value): Outcome<int> {
    match v
    case Signed(i) => Ok(i)
    case Unsigned(u) => Ok(u)
    case _ => Panic
  }

  /** Float windows accept every number. */
  function ReadFloat(v: Value): Outcome<real> {
    match v
    case Float(f) => Ok(f)
    case Signed(i) => Ok(i as real)
    case Unsigned(u) => Ok(u as real)
    case _ => Panic
  }

  function NumberOf(v: Value): real {
    match v
    case Float(f) => f
    case Signed(i) => i as real
    case Unsigned(u) => u as real
    case _ => 0.0
  }

  /** What every reader accepts, and that it reads the number; only signed windows take numbers of two types. */
  lemma ReadersExact(v: Value)
    ensures ReadUnsigned(v).Ok? <==> v.Unsigned?
    ensures ReadSigned(v).Ok? <==> v.Unsigned? || v.Signed?
    ensures ReadFloat(v).Ok? <==> v.Unsigned? || v.Signed? || v.Float?
    ensures ReadUnsigned(v).Ok? ==> ReadUnsigned(v).value as real == NumberOf(v)
    ensures ReadSigned(v).Ok? ==> ReadSigned(v).value as real == NumberOf(v)
    ensures ReadFloat(v).Ok? ==> ReadFloat(v).value == NumberOf(v)
  {
  }

  function Both<N>(f: (N, N) -> N, a: Outcome<N>, b: Outcome<N>): Outcome<N> {
    if a.Ok? && b.Ok? then Ok(f(a.value, b.value)) else Panic
  }

  ghost predicate Associative<N(!new)>(f: (N, N) -> N) {
    forall a, b, c :: f(f(a, b), c) == f(a, f(b, c))
  }

  /** All samples are readable. */
  ghost predicate Readable<N>(read: Reader<N>, xs: seq<Sample>) {
    forall i | 0 <= i < |xs| :: read(xs[i].v).Ok?
  }

  // ---------- count, sum, conjunction, disjunction ----------

  function Count(): Summary<nat> {
    Summary(_ => 0, (a, b) => a + b, _ => 1, n => Ok(Unsigned(n)))
  }

  function Sum<N>(zero: N, plus: (N, N) -> N, read: Reader<N>, write: N -> Value): Summary<Outcome<N>> {
    Summary(_ => Ok(zero),
            (a, b) => Both(plus, a, b),
            (x: Sample) => read(x.v),
            (r: Outcome<N>) => if r.Ok? then Ok(write(r.value)) else Panic)
  }

  function ReadBool(v: Value): Outcome<bool> {
    if v.Bool? then Ok(v.b) else Panic
  }

  function Conj(): Summary<Outcome<bool>> {
    Sum(true, (a, b) => a && b, v => ReadBool(v), b => Bool(b))
  }

  function Disj(): Summary<Outcome<bool>> {
    Sum(false, (a, b) => a || b, v => ReadBool(v), b => Bool(b))
  }

  lemma CountLawful()
    ensures Lawful(Count())
  {
  }

  lemma SumLawful<N(!new)>(zero: N, plus: (N, N) -> N, read: Reader<N>, write: N -> Value)
    requires Associative(plus) && forall a :: plus(a, zero) == a
    ensures Lawful(Sum(zero, plus, read, write))
  {
    var s := Sum(zero, plus, read, write);
    forall a, b, c ensures s.add(s.add(a, b), c) == s.add(a, s.add(b, c)) {
    }
  }

  lemma {:induction false} CountMeaning(t: Time, xs: seq<Sample>)
    ensures Fold(Count(), Count().neutral(t), xs) == |xs|
    ensures Count().result(Fold(Count(), Count().neutral(t), xs)) == Ok(Unsigned(|xs|))
  {
    if xs != [] {
      CountMeaning(t, xs[..|xs| - 1]);
    }
  }

  function Total<N>(zero: N, plus: (N, N) -> N, read: Reader<N>, xs: seq<Sample>): N
    requires Readable(read, xs)
  {
    if xs == [] then zero else
    assert Readable(read, xs[..|xs| - 1]);
    plus(Total(zero, plus, read, xs[..|xs| - 1]), read(xs[|xs| - 1].v).value)
  }

  /** A sum panics exactly if some value has the wrong type; otherwise it is the total. */
  lemma {:induction false} SumMeaning<N>(zero: N, plus: (N, N) -> N, read: Reader<N>, write: N -> Value, t: Time,
                                         xs: seq<Sample>)
    ensures var s := Sum(zero, plus, read, write);
            var r := Fold(s, s.neutral(t), xs);
            && (r.Ok? <==> Readable(read, xs))
            && (r.Ok? ==> r.value == Total(zero, plus, read, xs))
            && s.result(r) == if Readable(read, xs) then Ok(write(Total(zero, plus, read, xs))) else Panic
  {
    if xs != [] {
      var init := xs[..|xs| - 1];
      SumMeaning(zero, plus, read, write, t, init);
      if Readable(read, init) && read(xs[|xs| - 1].v).Ok? {
        forall i | 0 <= i < |xs| ensures read(xs[i].v).Ok? {
          assert i < |init| ==> xs[i] == init[i];
        }
      }
    }
  }

  lemma {:induction false} ConjMeaning(t: Time, xs: seq<Sample>)
    requires Readable(v => ReadBool(v), xs)
    ensures Conj().result(Fold(Conj(), Conj().neutral(t), xs)) == Ok(Bool(forall i | 0 <= i < |xs| :: xs[i].v.b))
  {
    if xs != [] {
      var init, last := xs[..|xs| - 1], xs[|xs| - 1];
      assert Readable(v => ReadBool(v), init);
      ConjMeaning(t, init);
      assert (forall i | 0 <= i < |xs| :: xs[i].v.b) <==> (forall i | 0 <= i < |init| :: init[i].v.b) && last.v.b;
    }
  }

  lemma {:induction false} DisjMeaning(t: Time, xs: seq<Sample>)
    requires Readable(v => ReadBool(v), xs)
    ensures Disj().result(Fold(Disj(), Disj().neutral(t), xs)) == Ok(Bool(exists i :: 0 <= i < |xs| && xs[i].v.b))
  {
    if xs != [] {
      var init, last := xs[..|xs| - 1], xs[|xs| - 1];
      assert Readable(v => ReadBool(v), init);
      DisjMeaning(t, init);
      if i :| 0 <= i < |init| && init[i].v.b {
        assert xs[i].v.b;
      }
    }
  }

  // ---------- minimum and maximum ----------

  /** Keeps one of two values; the empty window has none. Values of mixed types are a type error. */
  function Extremum<N>(pick: (N, N) -> N, read: Reader<N>, write: N -> Value): Summary<Outcome<Option<N>>> {
    Summary(_ => Ok(Nothing),
            (a: Outcome<Option<N>>, b: Outcome<Option<N>>) =>
              if a.Panic? || b.Panic? then Panic
              else if b.value.Nothing? then a
              else if a.value.Nothing? then b
              else Ok(Just(pick(a.value.value, b.value.value))),
            (x: Sample) =>
              if x.v.None? then Ok(Nothing)
              else if read(x.v).Ok? then Ok(Just(read(x.v).value)) else Panic,
            (r: Outcome<Option<N>>) =>
              if r.Panic? then Panic else Ok(if r.value.Just? then write(r.value.value) else Value.None))
  }

  lemma ExtremumLawful<N(!new)>(pick: (N, N) -> N, read: Reader<N>, write: N -> Value)
    requires Associative(pick)
    ensures Lawful(Extremum(pick, read, write))
  {
    var s := Extremum(pick, read, write);
    forall a, b, c ensures s.add(s.add(a, b), c) == s.add(a, s.add(b, c)) {
    }
  }

  /** A sample that is no value changes nothing. */
  lemma ExtremumSkipsNone<N>(pick: (N, N) -> N, read: Reader<N>, write: N -> Value, acc: Outcome<Option<N>>, t: Time)
    ensures var s := Extremum(pick, read, write); s.add(acc, s.lift(Sample(Value.None, t))) == acc
  {
  }

  /** `pick` chooses the one of two values that comes first in the transitive, reflexive order `before`. */
  ghost predicate Picks<N(!new)>(pick: (N, N) -> N, before: (N, N) -> bool) {
    && (forall a, b :: pick(a, b) == a || pick(a, b) == b)
    && (forall a, b :: before(pick(a, b), a) && before(pick(a, b), b))
    && (forall a, b, c :: before(a, b) && before(b, c) ==> before(a, c))
    && (forall a :: before(a, a))
  }

  /** A non-empty window yields a value of the window that comes before every other; an empty one yields none. */
  lemma {:induction false} ExtremumMeaning<N(!new)>(pick: (N, N) -> N, before: (N, N) -> bool, read: Reader<N>,
                                                    write: N -> Value, t: Time, xs: seq<Sample>)
    requires Picks(pick, before) && Readable(read, xs) && forall i | 0 <= i < |xs| :: !xs[i].v.None?
    ensures var s := Extremum(pick, read, write);
            var r := Fold(s, s.neutral(t), xs);
            && r.Ok?
            && (xs == [] ==> r.value.Nothing?)
            && (xs != [] ==> r.value.Just?
                             && (exists i :: 0 <= i < |xs| && read(xs[i].v).value == r.value.value)
                             && forall i | 0 <= i < |xs| :: before(r.value.value, read(xs[i].v).value))
            && s.result(r) == Ok(if xs == [] then Value.None else write(r.value.value))
  {
    if xs != [] {
      var init, last := xs[..|xs| - 1], xs[|xs| - 1];
      var s := Extremum(pick, read, write);
      ExtremumMeaning(pick, before, read, write, t, init);
      var m := read(last.v).value;
      if init == [] {
        assert read(xs[0].v).value == m;
      } else {
        var b := Fold(s, s.neutral(t), init).value.value;
        var i :| 0 <= i < |init| && read(init[i].v).value == b;
        assert read(xs[if pick(b, m) == b then i else |init|].v).value == pick(b, m);
        forall j | 0 <= j < |xs| ensures before(pick(b, m), read(xs[j].v).value) {
          if j < |init| {
            assert before(b, read(init[j].v).value);
          }
        }
      }
    }
  }

  function MinInt(a: int, b: int): int { if b < a then b else a }
  function MaxInt(a: int, b: int): int { if b > a then b else a }
  function MinReal(a: real, b: real): real { if b < a then b else a }
  function MaxReal(a: real, b: real): real { if b > a then b else a }

  // The picks of the minimum and maximum windows are associative and choose the least or greatest value.

  lemma MinIntPicks()
    ensures Associative((a: int, b: int) => MinInt(a, b))
            && Picks((a: int, b: int) => MinInt(a, b), (a: int, b: int) => a <= b)
  {
  }

  lemma MaxIntPicks()
    ensures Associative((a: int, b: int) => MaxInt(a, b))
            && Picks((a: int, b: int) => MaxInt(a, b), (a: int, b: int) => a >= b)
  {
  }

  lemma MinRealPicks()
    ensures Associative((a: real, b: real) => MinReal(a, b))
            && Picks((a: real, b: real) => MinReal(a, b), (a: real, b: real) => a <= b)
  {
  }

  lemma MaxRealPicks()
    ensures Associative((a: real, b: real) => MaxReal(a, b))
            && Picks((a: real, b: real) => MaxReal(a, b), (a: real, b: real) => a >= b)
  {
  }

  // ---------- average ----------

  /** The number of samples is zero exactly for the empty summary. */
  datatype AvgIV<N> = AvgEmpty | AvgOf(sum: N, num: nat)

  function Avg<N>(plus: (N, N) -> N, read: Reader<N>, divide: (N, nat) -> Value): Summary<Outcome<AvgIV<N>>> {
    Summary(_ => Ok(AvgEmpty),
            (a: Outcome<AvgIV<N>>, b: Outcome<AvgIV<N>>) =>
              if a.Panic? || b.Panic? then Panic
              else if b.value.AvgEmpty? then a
              else if a.value.AvgEmpty? then b
              else Ok(AvgOf(plus(a.value.sum, b.value.sum), a.value.num + b.value.num)),
            (x: Sample) => if read(x.v).Ok? then Ok(AvgOf(read(x.v).value, 1)) else Panic,
            (r: Outcome<AvgIV<N>>) =>
              if r.Panic? then Panic
              else Ok(if r.value.AvgOf? then divide(r.value.sum, r.value.num) else Value.None))
  }

  lemma AvgLawful<N(!new)>(plus: (N, N) -> N, read: Reader<N>, divide: (N, nat) -> Value)
    requires Associative(plus)
    ensures Lawful(Avg(plus, read, divide))
  {
    var s := Avg(plus, read, divide);
    forall a, b, c ensures s.add(s.add(a, b), c) == s.add(a, s.add(b, c)) {
    }
  }

  /** An average divides the total by the number of samples, and so never by zero. */
  lemma {:induction false} AvgMeaning<N(!new)>(zero: N, plus: (N, N) -> N, read: Reader<N>, divide: (N, nat) -> Value,
                                               t: Time, xs: seq<Sample>)
    requires Readable(read, xs) && forall a :: plus(zero, a) == a
    ensures var s := Avg(plus, read, divide);
            && Fold(s, s.neutral(t), xs) == Ok(if xs == [] then AvgEmpty else AvgOf(Total(zero, plus, read, xs), |xs|))
            && s.result(Fold(s, s.neutral(t), xs))
               == Ok(if xs == [] then Value.None else divide(Total(zero, plus, read, xs), |xs|))
  {
    if xs != [] {
      var init := xs[..|xs| - 1];
      assert Readable(read, init);
      AvgMeaning(zero, plus, read, divide, t, init);
    }
  }

  // ---------- integral ----------

  /**
   The area under a stretch of samples, with its first and last sample; or a panic: a failed
   time-order assertion or a type error.
   */
  datatype IntegralIV =
    | Integral(volume: real, endValue: real, endTime: Time, startValue: real, startTime: Time, valid: bool)
    | IntegralPanic

  function IntegralAdd(secs: nat -> real, a: IntegralIV, b: IntegralIV): IntegralIV {
    if !a.Integral? then a
    else if !b.Integral? then b
    else if !b.valid then a
    else if !a.valid then b
    else if b.startTime < a.endTime then IntegralPanic
    else
      var additional := (b.startValue + a.endValue) * secs(b.startTime - a.endTime) / 2.0;
      Integral(a.volume + b.volume + additional, b.endValue, b.endTime, a.startValue, a.startTime, true)
  }

  function IntegralPoint(x: Sample): IntegralIV {
    var f := ReadFloat(x.v);
    if f.Ok? then Integral(0.0, f.value, x.ts, f.value, x.ts, true) else IntegralPanic
  }

  /** `secs` converts a duration in nanoseconds to seconds. */
  function IntegralOf(secs: nat -> real): Summary<IntegralIV> {
    Summary(t => Integral(0.0, 0.0, t, 0.0, t, false),
            (a, b) => IntegralAdd(secs, a, b),
            x => IntegralPoint(x),
            (r: IntegralIV) => if r.Integral? then Ok(Float(r.volume)) else Panic)
  }

  lemma IntegralLawful(secs: nat -> real)
    ensures Lawful(IntegralOf(secs))
  {
    var s := IntegralOf(secs);
    forall a, b, c ensures s.add(s.add(a, b), c) == s.add(a, s.add(b, c)) {
      IntegralAssociative(secs, a, b, c);
    }
  }

  lemma IntegralAssociative(secs: nat -> real, a: IntegralIV, b: IntegralIV, c: IntegralIV)
    ensures IntegralAdd(secs, IntegralAdd(secs, a, b), c) == IntegralAdd(secs, a, IntegralAdd(secs, b, c))
  {
  }

  /** The trapezoid sum over all consecutive samples. */
  function Trapezoids(secs: nat -> real, xs: seq<Sample>): real
    requires TimeOrdered(xs) && Readable(v => ReadFloat(v), xs)
  {
    if |xs| < 2 then 0.0 else
    var n := |xs| - 1;
    assert forall i | 0 <= i < n :: xs[..n][i] == xs[i];
    Trapezoids(secs, xs[..n])
    + (ReadFloat(xs[n].v).value + ReadFloat(xs[n - 1].v).value) * secs(xs[n].ts - xs[n - 1].ts) / 2.0
  }

  /** Up to the last sample but one, and between the last two: the mean of their values times the distance. */
  lemma TrapezoidsAddUp(secs: nat -> real, xs: seq<Sample>)
    requires TimeOrdered(xs) && Readable(v => ReadFloat(v), xs) && |xs| >= 2
    ensures var n := |xs| - 1;
            && TimeOrdered(xs[..n]) && Readable(v => ReadFloat(v), xs[..n])
            && Trapezoids(secs, xs) == Trapezoids(secs, xs[..n])
               + (NumberOf(xs[n].v) + NumberOf(xs[n - 1].v)) / 2.0 * secs(xs[n].ts - xs[n - 1].ts)
  {
    OrderedInit(xs);
  }

  lemma NoArea(secs: nat -> real, xs: seq<Sample>)
    requires |xs| < 2 && Readable(v => ReadFloat(v), xs)
    ensures TimeOrdered(xs) && Trapezoids(secs, xs) == 0.0
  {
  }

  ghost predicate TimeOrdered(xs: seq<Sample>) {
    forall i, j | 0 <= i <= j < |xs| :: xs[i].ts <= xs[j].ts
  }

  /** Over samples in time order the fold is the trapezoid sum, and the time-order assertion never fails. */
  lemma {:induction false} IntegralMeaning(secs: nat -> real, t: Time, xs: seq<Sample>)
    requires TimeOrdered(xs) && Readable(v => ReadFloat(v), xs)
    ensures var s := IntegralOf(secs);
            Fold(s, s.neutral(t), xs) ==
            if xs == [] then s.neutral(t)
            else Integral(Trapezoids(secs, xs),
                          ReadFloat(xs[|xs| - 1].v).value, xs[|xs| - 1].ts,
                          ReadFloat(xs[0].v).value, xs[0].ts, true)
    ensures var s := IntegralOf(secs);
            s.result(Fold(s, s.neutral(t), xs)) == Ok(Float(Trapezoids(secs, xs)))
  {
    if xs != [] {
      var n := |xs| - 1;
      var init := xs[..n];
      assert forall i | 0 <= i < n :: init[i] == xs[i];
      IntegralMeaning(secs, t, init);
      assert IntegralPoint(xs[n]).valid;
    }
  }

  lemma OrderedSnoc(xs: seq<Sample>, x: Sample)
    requires TimeOrdered(xs) && (xs != [] ==> xs[|xs| - 1].ts <= x.ts)
    ensures TimeOrdered(xs + [x])
  {
    assert forall i | 0 <= i < |xs| :: xs[i].ts <= xs[|xs| - 1].ts;
  }

  lemma OrderedInit(h: seq<Sample>)
    requires TimeOrdered(h) && h != []
    ensures TimeOrdered(h[..|h| - 1]) && (|h| > 1 ==> h[|h| - 2].ts <= h[|h| - 1].ts)
  {
    assert forall i | 0 <= i < |h| - 1 :: h[..|h| - 1][i] == h[i];
  }

  /** A range of buckets of an ordered history is ordered. */
  lemma {:induction false} BetweenOrdered(start: Time, width: nat, h: seq<Sample>, lo: int, hi: int)
    requires TimeOrdered(h)
    ensures TimeOrdered(Between(start, width, h, lo, hi))
    ensures var b := Between(start, width, h, lo, hi);
            b != [] ==> h != [] && b[|b| - 1].ts <= h[|h| - 1].ts
  {
    if h != [] {
      var init, last := h[..|h| - 1], h[|h| - 1];
      OrderedInit(h);
      BetweenOrdered(start, width, init, lo, hi);
      if InBuckets(start, width, last, lo, hi) {
        OrderedSnoc(Between(start, width, init, lo, hi), last);
      }
    }
  }

  lemma {:induction false} BetweenMembers(start: Time, width: nat, h: seq<Sample>, lo: int, hi: int)
    ensures forall x | x in Between(start, width, h, lo, hi) :: x in h
  {
    if h != [] {
      BetweenMembers(start, width, h[..|h| - 1], lo, hi);
    }
  }

  /** A range of buckets of an ordered, readable history is ordered and readable. */
  lemma BetweenKeepsOrder(start: Time, width: nat, h: seq<Sample>, lo: int, hi: int)
    requires TimeOrdered(h) && Readable(v => ReadFloat(v), h)
    ensures TimeOrdered(Between(start, width, h, lo, hi))
    ensures Readable(v => ReadFloat(v), Between(start, width, h, lo, hi))
  {
    var b := Between(start, width, h, lo, hi);
    BetweenOrdered(start, width, h, lo, hi);
    BetweenMembers(start, width, h, lo, hi);
    forall i | 0 <= i < |b| ensures ReadFloat(b[i].v).Ok? {
      assert b[i] in h;
    }
  }

  /**
   An integral window over samples accepted in time order reports the trapezoid sum over all
   consecutive samples in its 64 buckets, however they fall into buckets.
   */
  lemma IntegralWindowMeaning(secs: nat -> real, duration: nat, wait: bool, start: Time, h: seq<Sample>, ts: Time)
    requires ts >= start && !(wait && ts < duration)
    requires TimeOrdered(h) && Readable(v => ReadFloat(v), h)
    ensures var width := duration / SIZE;
            var current := BucketNumber(start, width, ts);
            var b := Between(start, width, h, current - (SIZE - 1), current);
            && TimeOrdered(b) && Readable(v => ReadFloat(v), b)
            && WindowValue(IntegralOf(secs), duration, wait, start, h, ts) == Ok(Float(Trapezoids(secs, b)))
  {
    var width := duration / SIZE;
    var current := BucketNumber(start, width, ts);
    BetweenKeepsOrder(start, width, h, current - (SIZE - 1), current);
    IntegralMeaning(secs, ts, Between(start, width, h, current - (SIZE - 1), current));
  }

  /** No bucket of an integral window fed in time order ever fails the time-order assertion. */
  lemma IntegralBucketsNeverPanic(secs: nat -> real, start: Time, width: nat, h: seq<Sample>, buckets: seq<IntegralIV>,
                                  stamps: seq<Time>, current: int)
    requires Consistent(IntegralOf(secs), start, width, h, buckets, stamps, current)
    requires TimeOrdered(h) && Readable(v => ReadFloat(v), h)
    ensures forall i | 0 <= i < SIZE :: buckets[i].Integral?
  {
    forall i | 0 <= i < SIZE ensures buckets[i].Integral? {
      BetweenKeepsOrder(start, width, h, current - i, current - i);
      IntegralMeaning(secs, stamps[i], Between(start, width, h, current - i, current - i));
    }
  }
}
