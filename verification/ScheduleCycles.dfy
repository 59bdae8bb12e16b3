/** The schedule as a whole: exactness of the cycle, its hyper period, and the effect of truncating pauses. */
module ScheduleCycles {
  import opened Numbers
  import opened Values
  import opened Rationals
  import opened Clocks
  import opened Schedules

  datatype Schedule = Schedule(hyperPeriod: nat, deadlines: seq<Deadline>)

  const ONE: Rat := Rat(1, 1)

  ghost predicate ReducedPeriods(streams: seq<TimeDriven>) {
    forall i | 0 <= i < |streams| :: Reduced(streams[i].period)
  }

  ghost predicate GcdOfPeriods(streams: seq<TimeDriven>, g: Rat) {
    && Reduced(g)
    && forall c | Reduced(c) :: Measures(c, g) <==> forall i | 0 <= i < |streams| :: Measures(c, streams[i].period)
  }

  /** The least whole number of nanoseconds that every period divides. */
  ghost predicate HyperPeriodOf(streams: seq<TimeDriven>, h: Rat) {
    && Reduced(h) && h.den == 1
    && forall m | Reduced(m) ::
         Measures(h, m) <==> Measures(ONE, m) && forall i | 0 <= i < |streams| :: Measures(streams[i].period, m)
  }

  method FindExtendPeriod(streams: seq<TimeDriven>) returns (g: Rat)
    requires streams != [] && ReducedPeriods(streams)
    ensures GcdOfPeriods(streams, g)
  {
    var periods := seq(|streams|, i requires 0 <= i < |streams| => streams[i].period);
    g := RationalGcdAll(periods);
    forall c | Reduced(c) ensures Measures(c, g) <==> forall i | 0 <= i < |streams| :: Measures(c, streams[i].period) {
      assert forall i | 0 <= i < |streams| :: periods[i] == streams[i].period;
    }
  }

  lemma OneReduced()
    ensures Reduced(ONE)
  {
    assert Bezout(1, 1, 1, 0, 1);
  }

  lemma MeasuredByOne(m: Rat)
    requires Reduced(m)
    ensures Measures(ONE, m) <==> m.den == 1
  {
    OneReduced();
    MeasuresIff(ONE, m);
    DividesIntro(1, m.num, m.num);
    if Divides(m.den, 1) {
      DividesBounds(m.den, 1);
    }
    DividesIntro(1, 1, 1);
  }

  method FindHyperPeriod(streams: seq<TimeDriven>) returns (h: Rat)
    requires streams != [] && ReducedPeriods(streams)
    ensures HyperPeriodOf(streams, h)
  {
    var periods := seq(|streams|, i requires 0 <= i < |streams| => streams[i].period);
    var lcm := RationalLcmAll(periods);
    OneReduced();
    RationalLcmShape(lcm, ONE);
    h := RationalLcm(lcm, ONE);  // a multiple of one nanosecond
    forall m | Reduced(m)
      ensures Measures(h, m) <==> Measures(ONE, m) && forall i | 0 <= i < |streams| :: Measures(streams[i].period, m)
    {
      RationalLcmUniversal(lcm, ONE, m);
      assert forall i | 0 <= i < |streams| :: periods[i] == streams[i].period;
    }
    MeasuresReflexive(h);
    MeasuredByOne(h);
  }

  lemma GcdMeasuresPeriods(streams: seq<TimeDriven>, g: Rat)
    requires GcdOfPeriods(streams, g)
    ensures forall i | 0 <= i < |streams| :: Measures(g, streams[i].period)
  {
    MeasuresReflexive(g);
  }

  lemma PeriodsMeasureHyper(streams: seq<TimeDriven>, h: Rat)
    requires HyperPeriodOf(streams, h)
    ensures forall i | 0 <= i < |streams| :: Measures(streams[i].period, h)
  {
    MeasuresReflexive(h);
  }

  /** For positive periods no integrality assertion fails and every stream finds its cell. */
  lemma StepsAlwaysBuildable(streams: seq<TimeDriven>, g: Rat, h: Rat)
    requires streams != [] && ReducedPeriods(streams) && GcdOfPeriods(streams, g) && HyperPeriodOf(streams, h)
    ensures AllPositive(streams) && StepsBuildable(streams, g, h)
    ensures IsMultiple(h, g, Quotient(h, g).num)
    ensures forall i | 0 <= i < |streams| :: Divides(StepsOf(g, streams[i].period), Quotient(h, g).num)
  {
    GcdMeasuresPeriods(streams, g);
    PeriodsMeasureHyper(streams, h);
    MeasuresTransitive(g, streams[0].period, h);
    QuotientInteger(h, g);
    var n := Quotient(h, g).num;
    ProductPositive(h.num, g.den);
    ProductPositive(h.den, g.num);
    NewRatReduced(h.num * g.den, h.den * g.num);
    forall i | 0 <= i < |streams|
      ensures Quotient(streams[i].period, g).den == 1 && Divides(StepsOf(g, streams[i].period), n)
      ensures StepsOf(g, streams[i].period) <= n
    {
      StepsOfMeasured(g, streams[i].period);
      HyperIsSteps(g, h, n, streams[i].period);
      DividesBounds(StepsOf(g, streams[i].period), n);
    }
  }

  lemma HyperIsSteps(g: Rat, h: Rat, n: nat, period: Rat)
    requires Positive(g) && Positive(period) && Positive(h) && Measures(g, period) && Measures(period, h)
             && IsMultiple(h, g, n)
    ensures Divides(StepsOf(g, period), n)
  {
    var k: nat :| IsMultiple(h, period, k);
    var t := StepTime(g, n);
    assert IsMultiple(t, h, 1) by {
      assert n * g.num * h.den == h.num * g.den;
    }
    MultipleTransitive(t, h, period, 1, k);
    DueIffDivides(g, period, n);
  }

  // ---------- the cycle ----------

  /**
   The deadlines of one hyper period of `n` steps, with the gaps between them:
   each holds exactly the streams whose period divides the time of its step, once each and in
   layer order; every step at which a stream is due has a deadline; and nothing is left over.
   */
  ghost predicate ExactCycle(streams: seq<TimeDriven>, g: Rat, n: nat, layer: nat -> nat, deadlines: seq<Deadline>,
                             gaps: seq<nat>)
    requires g.den > 0
  {
    && |deadlines| == |gaps| && Elapsed(gaps, |gaps|) == n
    && (forall m | 0 <= m < |gaps| :: DeadlineExact(streams, g, layer, deadlines[m], gaps[m], Elapsed(gaps, m + 1)))
    && (forall i, j | 0 <= i < |streams| && 1 <= j <= n && Measures(streams[i].period, StepTime(g, j)) ::
        HasDeadline(gaps, j))
  }

  ghost predicate HasDeadline(gaps: seq<nat>, j: nat) {
    exists m: nat :: 1 <= m <= |gaps| && Elapsed(gaps, m) == j
  }

  ghost predicate DeadlineExact(streams: seq<TimeDriven>, g: Rat, layer: nat -> nat, deadline: Deadline, gap: nat,
                                step: nat)
    requires g.den > 0
  {
    && gap >= 1 && deadline.pause == Pause(g, gap) && deadline.due != []
    && SortedByLayer(deadline.due, layer)
    && (forall i | 0 <= i < |streams| ::
          multiset(deadline.due)[streams[i].reference] == if Measures(streams[i].period, StepTime(g, step)) then 1
              else 0)
    && (forall x | x in deadline.due :: exists i :: 0 <= i < |streams| && streams[i].reference == x)
  }

  lemma CellDueOnce(streams: seq<TimeDriven>, g: Rat, layer: nat -> nat, steps: seq<seq<nat>>, j: nat, i: nat)
    requires AllPositive(streams) && Positive(g) && DistinctReferences(streams)
    requires StartCells(streams, g, steps) && j < |steps| && i < |streams|
    requires Measures(g, streams[i].period) && StepsOf(g, streams[i].period) <= |steps|
    ensures multiset(SortByLayer(DueBy(steps, |steps|, j), layer))[streams[i].reference]
            == if Measures(streams[i].period, StepTime(g, j + 1)) then 1 else 0
  {
    SortByLayerSorts(DueBy(steps, |steps|, j), layer);
    DueOnce(streams, g, steps, |steps|, j, i);
    DueIffDivides(g, streams[i].period, j + 1);
  }

  lemma CellHoldsStreams(streams: seq<TimeDriven>, g: Rat, layer: nat -> nat, steps: seq<seq<nat>>, j: nat, x: nat)
    requires AllPositive(streams) && Positive(g) && DistinctReferences(streams)
    requires StartCells(streams, g, steps) && j < |steps| && x in SortByLayer(DueBy(steps, |steps|, j), layer)
    ensures exists i :: 0 <= i < |streams| && streams[i].reference == x
  {
    var cell := DueBy(steps, |steps|, j);
    SortByLayerSorts(cell, layer);
    assert x in multiset(SortByLayer(cell, layer));
    if forall i | 0 <= i < |streams| :: streams[i].reference != x {
      OnlyStreamsDue(streams, g, steps, |steps|, j, x);
    }
  }

  /** Sieve cells become exact deadlines. */
  lemma CellExact(streams: seq<TimeDriven>, g: Rat, layer: nat -> nat, steps: seq<seq<nat>>, j: nat, gap: nat)
    requires AllPositive(streams) && Positive(g) && DistinctReferences(streams)
    requires StartCells(streams, g, steps) && j < |steps| && gap >= 1 && DueBy(steps, |steps|, j) != []
    requires forall i | 0 <= i < |streams| :: Measures(g, streams[i].period) && StepsOf(g, streams[i].period) <= |steps|
    ensures var cell := DueBy(steps, |steps|, j);
            DeadlineExact(streams, g, layer, Deadline(Pause(g, gap), SortByLayer(cell, layer)), gap, j + 1)
  {
    var cell := DueBy(steps, |steps|, j);
    var sorted: seq<nat> := SortByLayer(cell, layer);
    SortByLayerSorts(cell, layer);
    SortedNotEmpty(cell, layer);
    forall i | 0 <= i < |streams|
      ensures multiset(sorted)[streams[i].reference] == if Measures(streams[i].period, StepTime(g, j + 1)) then 1 else 0
    {
      CellDueOnce(streams, g, layer, steps, j, i);
    }
    forall x | x in sorted ensures exists i :: 0 <= i < |streams| && streams[i].reference == x {
      CellHoldsStreams(streams, g, layer, steps, j, x);
    }
  }

  lemma SortedNotEmpty(cell: seq<nat>, layer: nat -> nat)
    requires cell != []
    ensures SortByLayer(cell, layer) != []
  {
    SortByLayerSorts(cell, layer);
    assert cell[0] in multiset(cell);
    assert cell[0] in multiset(SortByLayer(cell, layer));
  }

  /** A step at which a stream is due is not empty; in particular the last step of the hyper period is not. */
  lemma DueCellNotEmpty(streams: seq<TimeDriven>, g: Rat, steps: seq<seq<nat>>, j: nat, i: nat)
    requires AllPositive(streams) && Positive(g) && DistinctReferences(streams)
    requires StartCells(streams, g, steps) && j < |steps| && i < |streams|
    requires StepsOf(g, streams[i].period) <= |steps| && Divides(StepsOf(g, streams[i].period), j + 1)
    ensures DueBy(steps, |steps|, j) != []
  {
    DueOnce(streams, g, steps, |steps|, j, i);
    assert multiset(DueBy(steps, |steps|, j))[streams[i].reference] == 1;
  }

  method SortDeadlines(deadlines: seq<Deadline>, layer: nat -> nat) returns (r: seq<Deadline>)
    ensures |r| == |deadlines|
    ensures forall m | 0 <= m < |r| :: r[m] == Deadline(deadlines[m].pause, SortByLayer(deadlines[m].due, layer))
  {
    r := [];
    for m := 0 to |deadlines|
      invariant |r| == m
      invariant forall k | 0 <= k < m :: r[k] == Deadline(deadlines[k].pause, SortByLayer(deadlines[k].due, layer))
    {
      r := r + [Deadline(deadlines[m].pause, SortByLayer(deadlines[m].due, layer))];
    }
  }

  /** The cells of the sieve: `res` is the sieve of start cells whose number is a multiple of every period. */
  ghost predicate Sieved(streams: seq<TimeDriven>, g: Rat, steps: seq<seq<nat>>, res: seq<seq<nat>>) {
    && streams != [] && AllPositive(streams) && Positive(g) && DistinctReferences(streams)
    && StartCells(streams, g, steps) && |steps| > 0
    && (forall i | 0 <= i < |streams| :: PeriodFits(streams[i].period, g, |steps|))
    && |res| == |steps| && forall j | 0 <= j < |res| :: res[j] == DueBy(steps, |steps|, j)
  }

  ghost predicate PeriodFits(period: Rat, g: Rat, n: nat)
    requires Positive(g) && Positive(period)
  {
    Measures(g, period) && Divides(StepsOf(g, period), n) && StepsOf(g, period) <= n
  }

  lemma SievedCellExact(streams: seq<TimeDriven>, g: Rat, layer: nat -> nat, steps: seq<seq<nat>>, res: seq<seq<nat>>,
                        j: nat, gap: nat)
    requires Sieved(streams, g, steps, res) && j < |res| && gap >= 1 && res[j] != []
    ensures DeadlineExact(streams, g, layer, Deadline(Pause(g, gap), SortByLayer(res[j], layer)), gap, j + 1)
  {
    forall i | 0 <= i < |streams| ensures Measures(g, streams[i].period) && StepsOf(g, streams[i].period) <= |steps| {
      assert PeriodFits(streams[i].period, g, |steps|);
    }
    CellExact(streams, g, layer, steps, j, gap);
  }

  lemma GapStep(res: seq<seq<nat>>, m: nat) returns (j: nat)
    requires m < |Gaps(res, |res|)|
    ensures j < |res| && Elapsed(Gaps(res, |res|), m + 1) == j + 1 && Gaps(res, |res|)[m] >= 1
    ensures m < |NonEmpty(res, |res|)| && NonEmpty(res, |res|)[m] == res[j] != []
  {
    GapReaches(res, |res|, m);
    GapPositive(res, |res|, m);
    j := Elapsed(Gaps(res, |res|), m + 1) - 1;
  }

  lemma SievedStepHasDeadline(streams: seq<TimeDriven>, g: Rat, steps: seq<seq<nat>>, res: seq<seq<nat>>, i: nat,
                              j: nat)
    requires Sieved(streams, g, steps, res) && i < |streams| && 1 <= j <= |steps|
    requires Measures(streams[i].period, StepTime(g, j))
    ensures HasDeadline(Gaps(res, |res|), j) && res[j - 1] != []
  {
    assert PeriodFits(streams[i].period, g, |steps|);
    DueIffDivides(g, streams[i].period, j);
    DueCellNotEmpty(streams, g, steps, j - 1, i);
    var m := StepReached(res, |res|, j - 1);
  }

  /** At the end of the hyper period every stream is due. */
  lemma LastCellNotEmpty(streams: seq<TimeDriven>, g: Rat, steps: seq<seq<nat>>, res: seq<seq<nat>>)
    requires Sieved(streams, g, steps, res)
    ensures res != [] && res[|res| - 1] != []
  {
    var last := |steps| - 1;
    assert PeriodFits(streams[0].period, g, |steps|);
    DueCellNotEmpty(streams, g, steps, last, 0);
    assert res[last] == DueBy(steps, |steps|, last);
  }

  lemma NothingLeftOver(res: seq<seq<nat>>)
    requires res != [] && res[|res| - 1] != []
    ensures EmptyRun(res, |res|) == 0
  {
  }

  /** The condensed and sorted cells of the sieve form an exact cycle. */
  lemma CondensedExact(streams: seq<TimeDriven>, g: Rat, layer: nat -> nat, steps: seq<seq<nat>>, res: seq<seq<nat>>,
                       deadlines: seq<Deadline>)
    requires Sieved(streams, g, steps, res)
    requires |deadlines| == |Gaps(res, |res|)| == |NonEmpty(res, |res|)|
    requires forall m | 0 <= m < |deadlines| ::
               deadlines[m] == Deadline(Pause(g, Gaps(res, |res|)[m]), SortByLayer(NonEmpty(res, |res|)[m], layer))
    ensures ExactCycle(streams, g, |steps|, layer, deadlines, Gaps(res, |res|))
  {
    var gaps := Gaps(res, |res|);
    GapsCover(res, |res|);
    LastCellNotEmpty(streams, g, steps, res);
    NothingLeftOver(res);
    forall m | 0 <= m < |gaps| ensures DeadlineExact(streams, g, layer, deadlines[m], gaps[m], Elapsed(gaps, m + 1)) {
      var j := GapStep(res, m);
      SievedCellExact(streams, g, layer, steps, res, j, gaps[m]);
      assert deadlines[m] == Deadline(Pause(g, gaps[m]), SortByLayer(res[j], layer));
    }
    forall i, j | 0 <= i < |streams| && 1 <= j <= |steps| && Measures(streams[i].period, StepTime(g, j))
      ensures HasDeadline(gaps, j)
    {
      SievedStepHasDeadline(streams, g, steps, res, i, j);
    }
  }

  lemma {:induction false} GapPositive(steps: seq<seq<nat>>, n: nat, m: nat)
    requires n <= |steps| && m < |Gaps(steps, n)|
    ensures Gaps(steps, n)[m] >= 1
  {
    if steps[n - 1] == [] || m < |Gaps(steps, n - 1)| {
      GapPositive(steps, n - 1, m);
    }
  }

  /**
   The schedule of a non-empty set of periodic streams: no assertion fails, it is refused
   exactly if the hyper period has too many steps, and otherwise its cycle is exact.
   */
  method From(streams: seq<TimeDriven>, layer: nat -> nat)
    returns (r: Outcome<Option<Schedule>>, ghost g: Rat, ghost gaps: seq<nat>)
    requires streams != [] && ReducedPeriods(streams) && DistinctReferences(streams)
    ensures r.Ok? && GcdOfPeriods(streams, g)
    ensures r.value.Just? ==>
              exists h: Rat {:trigger HyperPeriodOf(streams, h)} ::
                && HyperPeriodOf(streams, h) && r.value.value.hyperPeriod == h.num
                && IsMultiple(h, g, Elapsed(gaps, |gaps|)) && Elapsed(gaps, |gaps|) < 10_000_000
                && ExactCycle(streams, g, Elapsed(gaps, |gaps|), layer, r.value.value.deadlines, gaps)
    ensures r.value.Nothing? ==>
              exists h: Rat {:trigger HyperPeriodOf(streams, h)} ::
                HyperPeriodOf(streams, h) && Quotient(h, g).num >= 10_000_000 && IsMultiple(h, g, Quotient(h, g).num)
  {
    var gcd := FindExtendPeriod(streams);
    g, gaps := gcd, [];
    var hyper := FindHyperPeriod(streams);
    StepsAlwaysBuildable(streams, gcd, hyper);
    var built := BuildExtendSteps(streams, gcd, hyper);
    if built.value.Nothing? {
      return Ok(Nothing), g, gaps;
    }
    var steps := built.value.value;
    var res := ApplyPeriodicity(steps);
    CellsPositive(hyper, gcd, |steps|);
    GcdMeasuresPeriods(streams, gcd);
    assert Sieved(streams, gcd, steps, res);
    LastCellNotEmpty(streams, gcd, steps, res);
    NothingLeftOver(res);
    var condensed := CondenseDeadlines(gcd, res);
    var deadlines := SortDeadlines(condensed.value, layer);
    gaps := Gaps(res, |res|);
    CondensedExact(streams, gcd, layer, steps, res, deadlines);
    return Ok(Just(Schedule(hyper.num, deadlines))), g, gaps;
  }

  lemma CellsPositive(h: Rat, g: Rat, n: nat)
    requires Positive(h) && Positive(g) && IsMultiple(h, g, n)
    ensures n > 0
  {
    ProductPositive(h.num, g.den);
  }

  /** The cycle repeats: what is due in a step of a later hyper period is what is due in the first. */
  lemma CycleRepeats(streams: seq<TimeDriven>, g: Rat, n: nat, c: nat, j: nat, i: nat)
    requires i < |streams| && Positive(g) && Positive(streams[i].period) && Measures(g, streams[i].period)
    requires Divides(StepsOf(g, streams[i].period), n)
    ensures Measures(streams[i].period, StepTime(g, c * n + j)) <==> Measures(streams[i].period, StepTime(g, j))
  {
    var s := StepsOf(g, streams[i].period);
    DueIffDivides(g, streams[i].period, c * n + j);
    DueIffDivides(g, streams[i].period, j);
    DividesElim(s, n);
    assert c * n == (c * (n / s)) * s;
    DividesIntro(s, c * n, c * (n / s));
    if Divides(s, j) {
      DividesCombination(s, c * n, j, 1, 1);
    }
    if Divides(s, c * n + j) {
      DividesCombination(s, c * n + j, c * n, 1, -1);
    }
  }

  /** When a stream is due, so is every stream whose period measures its period. */
  lemma FasterStreamsDue(slow: Rat, fast: Rat, g: Rat, j: nat)
    requires Positive(slow) && Positive(fast) && Measures(fast, slow) && Measures(slow, StepTime(g, j))
    ensures Measures(fast, StepTime(g, j))
  {
    var k: nat :| IsMultiple(slow, fast, k);
    var l: nat :| IsMultiple(StepTime(g, j), slow, l);
    MultipleTransitive(StepTime(g, j), slow, fast, l, k);
  }

  // ---------- truncation ----------

  function PauseSum(g: Rat, gaps: seq<nat>, m: nat): nat
    requires g.den > 0 && m <= |gaps|
  {
    if m == 0 then 0 else PauseSum(g, gaps, m - 1) + Pause(g, gaps[m - 1])
  }

  lemma PauseRounding(g: Rat, k: nat)
    requires g.den > 0
    ensures Pause(g, k) * g.den <= g.num * k < (Pause(g, k) + 1) * g.den
    ensures g.den == 1 ==> Pause(g, k) == g.num * k
  {
    MulDistributes(Pause(g, k), 1, g.den);
  }

  /**
   After `m` deadlines the truncated pauses lag behind the exact time by less than `m` nanoseconds,
   and never lead.
   */
  lemma {:induction false} Drift(g: Rat, gaps: seq<nat>, m: nat)
    requires g.den > 0 && m <= |gaps|
    ensures PauseSum(g, gaps, m) * g.den <= g.num * Elapsed(gaps, m)
    ensures m >= 1 ==> g.num * Elapsed(gaps, m) < (PauseSum(g, gaps, m) + m) * g.den
    ensures m == 0 || g.den == 1 ==> PauseSum(g, gaps, m) * g.den == g.num * Elapsed(gaps, m)
  {
    if m > 0 {
      Drift(g, gaps, m - 1);
      PauseRounding(g, gaps[m - 1]);
      DriftStep(g, PauseSum(g, gaps, m - 1), Pause(g, gaps[m - 1]), Elapsed(gaps, m - 1), gaps[m - 1], m - 1);
    }
  }

  lemma DriftStep(g: Rat, p: nat, q: nat, e: nat, k: nat, m: nat)
    requires p * g.den <= g.num * e && (m >= 1 ==> g.num * e < (p + m) * g.den) && (m == 0 ==> p == e == 0)
    requires q * g.den <= g.num * k < (q + 1) * g.den
    ensures (p + q) * g.den <= g.num * (e + k) < (p + q + (m + 1)) * g.den
    ensures p * g.den == g.num * e && q * g.den == g.num * k ==> (p + q) * g.den == g.num * (e + k)
  {
    MulDistributes(p, q, g.den);
    MulDistributes(e, k, g.num);
    MulDistributes(p + m, q + 1, g.den);
    assert p + q + (m + 1) == (p + m) + (q + 1);
  }

  /**
   The pauses of one cycle add up to at most the hyper period and to more than the hyper
   period minus one nanosecond per deadline; exactly, if the gcd is a whole number.
   */
  lemma CycleLength(g: Rat, h: Rat, gaps: seq<nat>)
    requires Positive(g) && h.den == 1 && gaps != [] && IsMultiple(h, g, Elapsed(gaps, |gaps|))
    ensures h.num - |gaps| < PauseSum(g, gaps, |gaps|) <= h.num
    ensures g.den == 1 ==> PauseSum(g, gaps, |gaps|) == h.num
  {
    var s, m := PauseSum(g, gaps, |gaps|), |gaps|;
    Drift(g, gaps, m);
    assert h.num * g.den == g.num * Elapsed(gaps, m);
    if s > h.num {
      MulMonotone(h.num + 1, s, g.den);
      MulDistributes(h.num, 1, g.den);
    }
    if h.num >= s + m {
      MulMonotone(s + m, h.num, g.den);
    }
  }

  /** A pause is positive exactly if its steps take at least a nanosecond; shorter pauses are truncated to nothing. */
  lemma PausePositive(g: Rat, k: nat)
    requires g.den > 0
    ensures Pause(g, k) > 0 <==> g.num * k >= g.den
  {
    PauseRounding(g, k);
    if Pause(g, k) > 0 {
      MulMonotone(1, Pause(g, k), g.den);
    }
  }
}
