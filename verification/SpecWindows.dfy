/**
 The windows of a specification: what the deques report in a run of the evaluator is what the
 declarative equations say.
 */
module SpecWindows {
  import opened Values
  import opened WindowLogs
  import opened Windows
  import opened WindowRuns
  import E = Expressions
  import M = Evaluator
  import Aggregations
  import Histories

  /** A window of a specification: a rotating deque, for the aggregate of the last 64 buckets. */
  function WindowOver<IV>(target: E.StreamRef, s: Summary<IV>, duration: nat, wait: bool): M.SlidingWindow {
    M.SlidingWindow(target,
                    (log: seq<Operation>, ts: Time) => Report(s, duration, wait, 0, log, ts),
                    (h: seq<Sample>, ts: Time) => WindowValue(s, duration, wait, 0, h, ts))
  }

  /** The deque of every lawful aggregation is faithful. */
  lemma DequeIsFaithful<IV(!new)>(target: E.StreamRef, s: Summary<IV>, duration: nat, wait: bool)
    requires Lawful(s)
    ensures M.Faithful(WindowOver(target, s, duration, wait))
  {
    var window := WindowOver(target, s, duration, wait);
    forall log, ts | UpToDate(0, log, ts) ensures window.report(log, ts) == window.value(AcceptedIn(log), ts) {
      ReportIsValue(s, duration, wait, 0, log, ts);
    }
  }

  // ---------- the windows of a run ----------

  /** A trace that satisfies the equations is in time order. */
  lemma {:induction false} ModelAscends(spec: M.Spec, p: E.Prims, run: seq<M.Step>, t: Histories.Trace)
    requires Histories.IsModel(spec, p, run, t)
    ensures Histories.Ascending(t)
  {
    if run != [] {
      var n := |run| - 1;
      ModelAscends(spec, p, run[..n], t[..n]);
      assert t == t[..n] + [t[n]];
      Histories.AscendingSnoc(t[..n], t[n]);
    }
  }

  /**
   A new deque on which everything is done that the run does to window `w` reports, at the time
   of the last step, the aggregate of the values of the stream that informs the window.
   */
  method DriveWindow<IV(!new)>(window: WindowInstance<IV>, spec: M.Spec, ghost p: E.Prims, ghost run: seq<M.Step>,
                               t: Histories.Trace, w: nat)
    returns (v: Outcome<Value>)
    requires window.Valid() && window.history == [] && window.lastBucketIx.Number(SIZE) == 0 && window.startTime == 0
    requires Lawful(window.summary) && Histories.IsModel(spec, p, run, t) && run != [] && w < |spec.windows|
    requires spec.windows[w] == WindowOver(spec.windows[w].target, window.summary, window.waitDuration, window.wait)
    modifies window
    ensures window.history == Histories.SourceHistory(t, M.Source(spec, w))
    ensures v == spec.windows[w].value(Histories.SourceHistory(t, M.Source(spec, w)), t[|t| - 1].ts)
  {
    ModelAscends(spec, p, run, t);
    Histories.OperationsMeaning(t, M.Source(spec, w));
    v := RunWindow(window, Histories.Operations(t, M.Source(spec, w)));
  }

  /** The values a window accepts in a run come in time order, as the integral asserts. */
  lemma AcceptsInOrder(spec: M.Spec, p: E.Prims, run: seq<M.Step>, t: Histories.Trace, src: Option<E.StreamRef>)
    requires Histories.IsModel(spec, p, run, t)
    ensures Aggregations.TimeOrdered(Histories.SourceHistory(t, src))
  {
    ModelAscends(spec, p, run, t);
    SourceOrdered(t, src);
  }

  lemma SourceOrdered(t: Histories.Trace, src: Option<E.StreamRef>)
    requires Histories.Ascending(t)
    ensures Aggregations.TimeOrdered(Histories.SourceHistory(t, src))
  {
    if src.Just? {
      Histories.TimedHistoryOrdered(t, src.value);
      assert Histories.SourceHistory(t, src) == Histories.TimedHistory(t, src.value);
    }
  }

  /**
   In every run, an integral window is the trapezoid sum over the values in the last 64 buckets of
   the stream that informs it.
   */
  lemma IntegralOfRun(spec: M.Spec, p: E.Prims, run: seq<M.Step>, t: Histories.Trace, w: nat,
                      secs: nat -> real, duration: nat, wait: bool, ts: Time)
    requires Histories.IsModel(spec, p, run, t) && w < |spec.windows| && !(wait && ts < duration)
    requires spec.windows[w] == WindowOver(spec.windows[w].target, Aggregations.IntegralOf(secs), duration, wait)
    requires Aggregations.Readable(v => Aggregations.ReadFloat(v), Histories.SourceHistory(t, M.Source(spec, w)))
    ensures TrapezoidWindow(secs, duration, Histories.SourceHistory(t, M.Source(spec, w)), ts,
                            spec.windows[w].value(Histories.SourceHistory(t, M.Source(spec, w)), ts))
  {
    var h := Histories.SourceHistory(t, M.Source(spec, w));
    AcceptsInOrder(spec, p, run, t, M.Source(spec, w));
    IntegralIsTrapezoid(secs, duration, wait, h, ts);
    assert spec.windows[w].value(h, ts) == WindowValue(Aggregations.IntegralOf(secs), duration, wait, 0, h, ts);
  }

  // ---------- windows that are not linked ----------

  /** The samples of a window's last 64 buckets. */
  function InRange(duration: nat, h: seq<Sample>, ts: Time): seq<Sample> {
    var current := BucketNumber(0, duration / SIZE, ts);
    Between(0, duration / SIZE, h, current - (SIZE - 1), current)
  }

  /** An aggregation that never mistakes samples for none. */
  ghost predicate Notices<IV(!new)>(s: Summary<IV>) {
    forall at, xs | xs != [] :: Noticed(s, at, xs)
  }

  ghost predicate Noticed<IV>(s: Summary<IV>, at: Time, xs: seq<Sample>) {
    s.result(Fold(s, s.neutral(at), xs)) != s.result(s.neutral(at))
  }

  /** A window reports the aggregate of no samples exactly if it waits, or has none in range. */
  lemma EmptyValueIff<IV(!new)>(s: Summary<IV>, duration: nat, wait: bool, h: seq<Sample>, ts: Time)
    requires InRange(duration, h, ts) != [] ==> Noticed(s, ts, InRange(duration, h, ts))
    ensures WindowValue(s, duration, wait, 0, h, ts) == WindowValue(s, duration, wait, 0, [], ts)
            <==> (wait && ts < duration) || InRange(duration, h, ts) == []
  {
    if !(wait && ts < duration) {
      var current := BucketNumber(0, duration / SIZE, ts);
      assert Between(0, duration / SIZE, [], current - (SIZE - 1), current) == [];
    }
  }

  /**
   Over every run, what a window reports after a step is the aggregate of its target exactly if it
   is linked, still waits, or its target had no value in range; for aggregations that notice samples.
   */
  lemma ReportsIntendedIff<IV(!new)>(spec: M.Spec, st: M.State, t: Histories.Trace, w: nat, s: Summary<IV>,
                                     duration: nat,
                                     wait: bool)
    requires Histories.Holding(spec, st, t) && t != [] && w < |spec.windows| && Lawful(s)
    requires spec.windows[w] == WindowOver(spec.windows[w].target, s, duration, wait)
    requires var xs := InRange(duration, Histories.TimedHistory(t, spec.windows[w].target), t[|t| - 1].ts);
             xs != [] ==> Noticed(s, t[|t| - 1].ts, xs)
    ensures var ts, h := t[|t| - 1].ts, Histories.TimedHistory(t, spec.windows[w].target);
            spec.windows[w].report(st.logs[w], ts) == spec.windows[w].value(h, ts)
            <==> w in spec.linked || (wait && ts < duration) || InRange(duration, h, ts) == []
  {
    var ts, h := t[|t| - 1].ts, Histories.TimedHistory(t, spec.windows[w].target);
    ReportsSource(spec, st, t, w, s, duration, wait);
    EmptyValueIff(s, duration, wait, h, ts);
  }

  /**
   What a window reports after a step is the aggregate of the stream that informs it; of nothing if
   it is not linked.
   */
  lemma ReportsSource<IV(!new)>(spec: M.Spec, st: M.State, t: Histories.Trace, w: nat, s: Summary<IV>, duration: nat,
                                wait: bool)
    requires Histories.Holding(spec, st, t) && t != [] && w < |spec.windows| && Lawful(s)
    requires spec.windows[w] == WindowOver(spec.windows[w].target, s, duration, wait)
    ensures spec.windows[w].report(st.logs[w], t[|t| - 1].ts)
            == WindowValue(s, duration, wait, 0, Histories.SourceHistory(t, M.Source(spec, w)), t[|t| - 1].ts)
  {
    Histories.OperationsMeaning(t, M.Source(spec, w));
    ReportIsValue(s, duration, wait, 0, st.logs[w], t[|t| - 1].ts);
  }

  /** A count notices every sample. */
  lemma CountNotices()
    ensures Notices(Aggregations.Count())
  {
    var s := Aggregations.Count();
    forall at, xs | xs != [] ensures Noticed(s, at, xs) {
      Aggregations.CountMeaning(at, xs);
    }
  }

  /** So does an average that divides to a value, over readable samples. */
  lemma AverageNoticed<N(!new)>(zero: N, plus: (N, N) -> N, read: Aggregations.Reader<N>, divide: (N, nat) -> Value,
                                at: Time, xs: seq<Sample>)
    requires Aggregations.Readable(read, xs) && xs != [] && forall a :: plus(zero, a) == a
    requires forall a: N, n: nat | n > 0 :: divide(a, n) != Value.None
    ensures Noticed(Aggregations.Avg(plus, read, divide), at, xs)
  {
    Aggregations.AvgMeaning(zero, plus, read, divide, at, xs);
  }

  /** And so does a minimum or maximum over readable samples. */
  lemma ExtremumNoticed<N(!new)>(pick: (N, N) -> N, before: (N, N) -> bool, read: Aggregations.Reader<N>,
                                 write: N -> Value, at: Time, xs: seq<Sample>)
    requires Aggregations.Picks(pick, before) && Aggregations.Readable(read, xs) && xs != []
    requires forall i | 0 <= i < |xs| :: !xs[i].v.None?
    requires forall n :: write(n) != Value.None
    ensures Noticed(Aggregations.Extremum(pick, read, write), at, xs)
  {
    Aggregations.ExtremumMeaning(pick, before, read, write, at, xs);
  }

  /** The value is the trapezoid sum over the samples in the last 64 buckets. */
  ghost predicate TrapezoidWindow(secs: nat -> real, duration: nat, h: seq<Sample>, ts: Time, v: Outcome<Value>) {
    var current := BucketNumber(0, duration / SIZE, ts);
    var b := Between(0, duration / SIZE, h, current - (SIZE - 1), current);
    && Aggregations.TimeOrdered(b) && Aggregations.Readable(v => Aggregations.ReadFloat(v), b)
    && v == Ok(Float(Aggregations.Trapezoids(secs, b)))
  }

  lemma IntegralIsTrapezoid(secs: nat -> real, duration: nat, wait: bool, h: seq<Sample>, ts: Time)
    requires !(wait && ts < duration) && Aggregations.TimeOrdered(h)
    requires Aggregations.Readable(v => Aggregations.ReadFloat(v), h)
    ensures TrapezoidWindow(secs, duration, h, ts, WindowValue(Aggregations.IntegralOf(secs), duration, wait, 0, h, ts))
  {
    Aggregations.IntegralWindowMeaning(secs, duration, wait, 0, h, ts);
  }

  // ---------- what windows report ----------

  /** What the equations say of a waiting window before its duration has passed: it has no value. */
  lemma WaitingIsNone<IV>(spec: M.Spec, p: E.Prims, past: Histories.Trace, row: Histories.Row, o: nat, w: nat,
                          s: Summary<IV>, duration: nat)
    requires w < |spec.windows| && spec.windows[w] == WindowOver(spec.windows[w].target, s, duration, true)
    requires row.ts < duration
    ensures E.EvalExpr(p, E.WindowLookup(w), Histories.DeclarativeCtx(spec, past, row, o)) == Ok(Value.None)
  {
    var src := M.Source(spec, w);
    var h := Histories.SourceHistory(if src == Just(E.OutRef(o)) then past else past + [row], src);
    assert spec.windows[w].value(h, row.ts) == WindowValue(s, duration, true, 0, h, row.ts);
    assert Histories.DeclarativeCtx(spec, past, row, o).window(w) == spec.windows[w].value(h, row.ts);
  }

  /** And so does its deque. */
  lemma WaitingReportsNone<IV(!new)>(target: E.StreamRef, s: Summary<IV>, duration: nat, log: seq<Operation>, ts: Time)
    requires Lawful(s) && UpToDate(0, log, ts) && ts < duration
    ensures WindowOver(target, s, duration, true).report(log, ts) == Ok(Value.None)
  {
    ReportIsValue(s, duration, true, 0, log, ts);
  }

  /** The samples in range are those of the history that are counted, in their order. */
  lemma InRangeExact(duration: nat, h: seq<Sample>, x: Sample, ts: Time)
    requires x.ts <= ts
    ensures InRange(duration, [], ts) == []
    ensures InRange(duration, h + [x], ts)
            == if Counted(0, duration, x, ts) then InRange(duration, h, ts) + [x] else InRange(duration, h, ts)
  {
    assert (h + [x])[..|h|] == h;
  }

  lemma SumReports<N>(zero: N, plus: (N, N) -> N, read: Aggregations.Reader<N>, write: N -> Value, duration: nat,
                      wait: bool, h: seq<Sample>, ts: Time)
    requires Aggregations.Readable(read, InRange(duration, h, ts))
    ensures WindowValue(Aggregations.Sum(zero, plus, read, write), duration, wait, 0, h, ts)
            == Ok(if wait && ts < duration then Value.None
                  else write(Aggregations.Total(zero, plus, read, InRange(duration, h, ts))))
  {
    Aggregations.SumMeaning(zero, plus, read, write, ts, InRange(duration, h, ts));
  }

  lemma AvgReports<N(!new)>(zero: N, plus: (N, N) -> N, read: Aggregations.Reader<N>, divide: (N, nat) -> Value,
                            duration: nat, wait: bool, h: seq<Sample>, ts: Time)
    requires Aggregations.Readable(read, InRange(duration, h, ts)) && forall a :: plus(zero, a) == a
    ensures var xs := InRange(duration, h, ts);
            WindowValue(Aggregations.Avg(plus, read, divide), duration, wait, 0, h, ts)
            == Ok(if (wait && ts < duration) || xs == [] then Value.None
                  else divide(Aggregations.Total(zero, plus, read, xs), |xs|))
  {
    Aggregations.AvgMeaning(zero, plus, read, divide, ts, InRange(duration, h, ts));
  }

  /** The window reports the written form of a sample in range that comes before all of them. */
  ghost predicate Unbeaten<N>(before: (N, N) -> bool, read: Aggregations.Reader<N>, write: N -> Value,
                              xs: seq<Sample>, v: Outcome<Value>)
    requires Aggregations.Readable(read, xs)
  {
    exists i :: 0 <= i < |xs| && v == Ok(write(read(xs[i].v).value))
                && forall j | 0 <= j < |xs| :: before(read(xs[i].v).value, read(xs[j].v).value)
  }

  lemma ExtremumReports<N(!new)>(pick: (N, N) -> N, before: (N, N) -> bool, read: Aggregations.Reader<N>,
                                 write: N -> Value, duration: nat, wait: bool, h: seq<Sample>, ts: Time)
    requires Aggregations.Picks(pick, before) && Aggregations.Readable(read, InRange(duration, h, ts))
    requires forall i | 0 <= i < |InRange(duration, h, ts)| :: !InRange(duration, h, ts)[i].v.None?
    ensures var xs := InRange(duration, h, ts);
            var v := WindowValue(Aggregations.Extremum(pick, read, write), duration, wait, 0, h, ts);
            if (wait && ts < duration) || xs == [] then v == Ok(Value.None) else Unbeaten(before, read, write, xs, v)
  {
    var xs, s := InRange(duration, h, ts), Aggregations.Extremum(pick, read, write);
    Aggregations.ExtremumMeaning(pick, before, read, write, ts, xs);
    if xs != [] {
      var m := Fold(s, s.neutral(ts), xs).value.value;
      var i :| 0 <= i < |xs| && read(xs[i].v).value == m;
    }
  }
}
