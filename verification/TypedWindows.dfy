/**
 The deque of each aggregation, fed with values of its target's type, always reports a value of the
 type the frontend gives it.
 */
module TypedWindows {
  import opened Values
  import opened Expressions
  import opened WindowLogs
  import opened Windows
  import opened WindowRuns
  import opened SpecWindows
  import opened Aggregations
  import opened TypedRuns
  import M = Evaluator

  /** Folded over typed samples in time order, the aggregation reports a value of type `t`. */
  ghost predicate Yields<IV(!new)>(s: Summary<IV>, produced: Type, t: Type) {
    forall at, xs | TimeOrdered(xs) && TypedSamples(xs, produced) :: Reports(s, at, xs, t)
  }

  ghost predicate Reports<IV>(s: Summary<IV>, at: Time, xs: seq<Sample>, t: Type) {
    var r := s.result(Fold(s, s.neutral(at), xs));
    r.Ok? && Matches(r.value, t)
  }

  /** A window that waits for its whole duration reports no value before. */
  function WindowType(wait: bool, t: Type): Type {
    if wait then OptionT(t) else t
  }

  // ---------- the samples in the buckets ----------

  /** What is accepted in time order is ordered. */
  lemma {:induction false} AcceptedOrdered(log: seq<Operation>)
    requires InTime(0, log)
    ensures TimeOrdered(AcceptedIn(log)) && forall i | 0 <= i < |AcceptedIn(log)| ::
              AcceptedIn(log)[i].ts <= LastTime(0, log)
  {
    if log != [] {
      AcceptedOrdered(log[..|log| - 1]);
    }
  }

  lemma BetweenTyped(start: Time, width: nat, h: seq<Sample>, lo: int, hi: int, produced: Type)
    requires TimeOrdered(h) && TypedSamples(h, produced)
    ensures TimeOrdered(Between(start, width, h, lo, hi)) && TypedSamples(Between(start, width, h, lo, hi), produced)
  {
    var b := Between(start, width, h, lo, hi);
    BetweenOrdered(start, width, h, lo, hi);
    BetweenMembers(start, width, h, lo, hi);
    forall i | 0 <= i < |b| ensures Matches(b[i].v, produced) {
      assert b[i] in h;
    }
  }

  lemma ValueTyped<IV(!new)>(s: Summary<IV>, produced: Type, t: Type, duration: nat, wait: bool, h: seq<Sample>,
                             ts: Time)
    requires Yields(s, produced, t) && TimeOrdered(h) && TypedSamples(h, produced)
    ensures var r := WindowValue(s, duration, wait, 0, h, ts);
            r.Ok? && Matches(r.value, WindowType(wait, t))
  {
    if !(wait && ts < duration) {
      var current := BucketNumber(0, duration / SIZE, ts);
      var b := Between(0, duration / SIZE, h, current - (SIZE - 1), current);
      BetweenTyped(0, duration / SIZE, h, current - (SIZE - 1), current, produced);
      assert Reports(s, ts, b, t);
    }
  }

  /** The deque never panics on typed values, and its type is that of the aggregation. */
  lemma DequeTyped<IV(!new)>(target: StreamRef, s: Summary<IV>, produced: Type, t: Type, duration: nat, wait: bool)
    requires Lawful(s) && Yields(s, produced, t)
    ensures TypedWindow(WindowOver(target, s, duration, wait), produced, WindowType(wait, t))
    ensures TotalWindow(WindowOver(target, s, duration, wait), produced)
  {
    var window := WindowOver(target, s, duration, wait);
    forall log, ts | UpToDate(0, log, ts) && TypedSamples(AcceptedIn(log), produced)
      ensures window.report(log, ts).Ok? && Matches(window.report(log, ts).value, WindowType(wait, t))
    {
      ReportIsValue(s, duration, wait, 0, log, ts);
      AcceptedOrdered(log);
      ValueTyped(s, produced, t, duration, wait, AcceptedIn(log), ts);
    }
  }

  // ---------- the aggregations ----------

  /** Any values can be counted. */
  lemma CountTyped(target: StreamRef, produced: Type, duration: nat, wait: bool)
    ensures TypedWindow(WindowOver(target, Count(), duration, wait), produced, WindowType(wait, UIntT))
    ensures TotalWindow(WindowOver(target, Count(), duration, wait), produced)
  {
    CountLawful();
    DequeTyped(target, Count(), produced, UIntT, duration, wait);
  }

  /** Waiting does not change the type of a window that may have no value anyway. */
  lemma OptionFlattens(window: M.SlidingWindow, produced: Type, wait: bool, t: Type)
    requires TypedWindow(window, produced, WindowType(wait, OptionT(t)))
    ensures TypedWindow(window, produced, OptionT(t))
  {
    forall log, ts | UpToDate(0, log, ts) && TypedSamples(AcceptedIn(log), produced)
      ensures TypedOutcome(window.report(log, ts), OptionT(t))
    {
      assert TypedOutcome(window.report(log, ts), WindowType(wait, OptionT(t)));
    }
  }

  ghost predicate Reads<N>(read: Reader<N>, produced: Type) {
    forall v | Matches(v, produced) :: read(v).Ok?
  }

  ghost predicate Writes<N(!new)>(write: N -> Value, t: Type) {
    forall n :: Matches(write(n), t)
  }

  /** A sum has the type its number type is written to; so have conjunction and disjunction. */
  lemma SumTyped<N(!new)>(target: StreamRef, zero: N, plus: (N, N) -> N, read: Reader<N>, write: N -> Value,
                          produced: Type, t: Type, duration: nat, wait: bool)
    requires Associative(plus) && forall a :: plus(a, zero) == a
    requires Reads(read, produced) && Writes(write, t)
    ensures TypedWindow(WindowOver(target, Sum(zero, plus, read, write), duration, wait), produced, WindowType(wait, t))
    ensures TotalWindow(WindowOver(target, Sum(zero, plus, read, write), duration, wait), produced)
  {
    var s := Sum(zero, plus, read, write);
    forall at, xs | TimeOrdered(xs) && TypedSamples(xs, produced) ensures Reports(s, at, xs, t) {
      SumMeaning(zero, plus, read, write, at, xs);
    }
    SumLawful(zero, plus, read, write);
    DequeTyped(target, s, produced, t, duration, wait);
  }

  function ReadNat(v: Value): Outcome<nat> {
    if v.Unsigned? then Ok(v.u) else Panic
  }

  /** Sums of unsigned and of floating-point streams have the type of the stream. */
  lemma NumberSumsTyped(target: StreamRef, duration: nat, wait: bool)
    ensures var s := Sum<nat>(0, (a: nat, b: nat) => a + b, v => ReadNat(v), (n: nat) => Unsigned(n));
            TypedWindow(WindowOver(target, s, duration, wait), UIntT, WindowType(wait, UIntT))
    ensures var s := Sum<real>(0.0, (a, b) => a + b, v => ReadFloat(v), r => Float(r));
            TypedWindow(WindowOver(target, s, duration, wait), FloatT, WindowType(wait, FloatT))
  {
    SumTyped<nat>(target, 0, (a: nat, b: nat) => a + b, v => ReadNat(v), (n: nat) => Unsigned(n), UIntT, UIntT,
                  duration, wait);
    SumTyped<real>(target, 0.0, (a, b) => a + b, v => ReadFloat(v), r => Float(r), FloatT, FloatT, duration, wait);
  }

  lemma ConjTyped(target: StreamRef, duration: nat, wait: bool)
    ensures TypedWindow(WindowOver(target, Conj(), duration, wait), BoolT, WindowType(wait, BoolT))
    ensures TotalWindow(WindowOver(target, Conj(), duration, wait), BoolT)
  {
    SumTyped(target, true, (a, b) => a && b, v => ReadBool(v), b => Bool(b), BoolT, BoolT, duration, wait);
  }

  lemma DisjTyped(target: StreamRef, duration: nat, wait: bool)
    ensures TypedWindow(WindowOver(target, Disj(), duration, wait), BoolT, WindowType(wait, BoolT))
    ensures TotalWindow(WindowOver(target, Disj(), duration, wait), BoolT)
  {
    SumTyped(target, false, (a, b) => a || b, v => ReadBool(v), b => Bool(b), BoolT, BoolT, duration, wait);
  }

  /** The minimum or maximum of a window without samples is no value. */
  lemma ExtremumTyped<N(!new)>(target: StreamRef, pick: (N, N) -> N, before: (N, N) -> bool, read: Reader<N>,
                               write: N -> Value,
                               produced: Type, t: Type, duration: nat, wait: bool)
    requires Associative(pick) && Picks(pick, before) && Reads(read, produced) && Writes(write, t)
    requires !Matches(Value.None, produced)
    ensures TypedWindow(WindowOver(target, Extremum(pick, read, write), duration, wait), produced, OptionT(t))
    ensures TotalWindow(WindowOver(target, Extremum(pick, read, write), duration, wait), produced)
  {
    var s := Extremum(pick, read, write);
    forall at, xs | TimeOrdered(xs) && TypedSamples(xs, produced) ensures Reports(s, at, xs, OptionT(t)) {
      ExtremumMeaning(pick, before, read, write, at, xs);
    }
    ExtremumLawful(pick, read, write);
    DequeTyped(target, s, produced, OptionT(t), duration, wait);
    OptionFlattens(WindowOver(target, s, duration, wait), produced, wait, t);
  }

  /** The average of a window without samples is no value; otherwise the divisor is positive. */
  lemma AvgTyped<N(!new)>(target: StreamRef, zero: N, plus: (N, N) -> N, read: Reader<N>, divide: (N, nat) -> Value,
                          produced: Type, t: Type, duration: nat, wait: bool)
    requires Associative(plus) && (forall a :: plus(zero, a) == a) && Reads(read, produced)
    requires forall a: N, n: nat | n > 0 :: Matches(divide(a, n), t)
    ensures TypedWindow(WindowOver(target, Avg(plus, read, divide), duration, wait), produced, OptionT(t))
    ensures TotalWindow(WindowOver(target, Avg(plus, read, divide), duration, wait), produced)
  {
    var s := Avg(plus, read, divide);
    forall at, xs | TimeOrdered(xs) && TypedSamples(xs, produced) ensures Reports(s, at, xs, OptionT(t)) {
      AvgMeaning(zero, plus, read, divide, at, xs);
    }
    AvgLawful(plus, read, divide);
    DequeTyped(target, s, produced, OptionT(t), duration, wait);
    OptionFlattens(WindowOver(target, s, duration, wait), produced, wait, t);
  }

  /** An integral over numbers of any type is a float. */
  lemma IntegralTyped(target: StreamRef, secs: nat -> real, produced: Type, duration: nat, wait: bool)
    requires Numeric(produced)
    ensures TypedWindow(WindowOver(target, IntegralOf(secs), duration, wait), produced, WindowType(wait, FloatT))
    ensures TotalWindow(WindowOver(target, IntegralOf(secs), duration, wait), produced)
  {
    var s := IntegralOf(secs);
    forall at, xs | TimeOrdered(xs) && TypedSamples(xs, produced) ensures Reports(s, at, xs, FloatT) {
      IntegralMeaning(secs, at, xs);
    }
    IntegralLawful(secs);
    DequeTyped(target, s, produced, FloatT, duration, wait);
  }
}
