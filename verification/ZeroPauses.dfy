/**
 Which schedules have a pause of zero nanoseconds, on which the controller's assertion fails: those
 with two periods whose greatest common divisor is less than a nanosecond.
 */
module ZeroPauses {
  import opened Numbers
  import opened Rationals
  import opened Clocks
  import opened Schedules
  import opened ScheduleCycles

  predicate AtLeastOne(r: Rat) {
    r.num >= r.den
  }

  /** Any two periods have a greatest common divisor of at least a nanosecond. */
  ghost predicate PairsApart(streams: seq<TimeDriven>)
    requires ReducedPeriods(streams)
  {
    forall i, j | 0 <= i < |streams| && 0 <= j < |streams| ::
      AtLeastOne(RationalGcd(streams[i].period, streams[j].period))
  }

  // ---------- the gcd of two periods, in steps ----------

  lemma MeasuresSteps(g: Rat, a: Rat, b: Rat)
    requires Reduced(g) && Reduced(a) && Reduced(b) && Measures(g, a) && Measures(g, b)
    ensures Measures(a, b) <==> Divides(StepsOf(g, a), StepsOf(g, b))
  {
    StepsOfMeasured(g, b);
    var t := StepTime(g, StepsOf(g, b));
    DueIffDivides(g, a, StepsOf(g, b));
    assert IsMultiple(b, t, 1) && IsMultiple(t, b, 1) by {
      assert b.num * g.den == StepsOf(g, b) * g.num * b.den;
    }
    if k: nat :| IsMultiple(b, a, k) {
      MultipleTransitive(t, b, a, 1, k);
    }
    if k: nat :| IsMultiple(t, a, k) {
      MultipleTransitive(b, t, a, 1, k);
    }
  }

  /** A whole number of steps as a reduced number. */
  lemma StepsAsRational(g: Rat, d: nat) returns (e: Rat)
    requires Reduced(g) && d > 0
    ensures Reduced(e) && Measures(g, e) && StepsOf(g, e) == d
  {
    ProductPositive(g.num, d);
    e := NewRat(g.num * d, g.den);
    NewRatReduced(g.num * d, g.den);
    assert IsMultiple(e, g, d) by {
      assert e.num * g.den == (g.num * d) * e.den;
      assert (g.num * d) * e.den == d * g.num * e.den;
    }
    StepsOfMeasured(g, e);
    SameMultiple(e, g, d, StepsOf(g, e));
  }

  /** In steps, the gcd of two periods is the gcd of their numbers of steps. */
  lemma GcdSteps(g: Rat, a: Rat, b: Rat)
    requires Reduced(g) && Reduced(a) && Reduced(b) && Measures(g, a) && Measures(g, b)
    ensures Reduced(RationalGcd(a, b)) && Measures(g, RationalGcd(a, b))
    ensures StepsOf(g, RationalGcd(a, b)) == Gcd(StepsOf(g, a), StepsOf(g, b))
  {
    var q, d := RationalGcd(a, b), Gcd(StepsOf(g, a), StepsOf(g, b));
    RationalGcdShape(a, b);
    RationalGcdUniversal(a, b, g);
    MeasuresReflexive(q);
    RationalGcdUniversal(a, b, q);
    MeasuresSteps(g, q, a);
    MeasuresSteps(g, q, b);
    GcdUniversal(StepsOf(g, a), StepsOf(g, b), StepsOf(g, q));
    GcdDivides(StepsOf(g, a), StepsOf(g, b));
    var e := StepsAsRational(g, d);
    MeasuresSteps(g, e, a);
    MeasuresSteps(g, e, b);
    RationalGcdUniversal(a, b, e);
    MeasuresSteps(g, e, q);
    DividesAntisymmetric(d, StepsOf(g, q));
  }

  /** A number of steps takes at least a nanosecond exactly if its truncated pause is positive. */
  lemma AtLeastOneIff(g: Rat, q: Rat)
    requires Positive(g) && Positive(q) && Measures(g, q)
    ensures AtLeastOne(q) <==> Pause(g, StepsOf(g, q)) > 0
  {
    StepsOfMeasured(g, q);
    var k := StepsOf(g, q);
    PausePositive(g, k);
    assert q.num * g.den == (g.num * k) * q.den by {
      assert k * g.num * q.den == (g.num * k) * q.den;
    }
    if q.num >= q.den && g.num * k < g.den {
      MulMonotone(q.den, q.num, g.den);
      MulMonotone(g.num * k + 1, g.den, q.den);
      MulDistributes(g.num * k, 1, q.den);
    }
    if q.num < q.den && g.num * k >= g.den {
      MulMonotone(g.den, g.num * k, q.den);
      MulMonotone(q.num + 1, q.den, g.den);
      MulDistributes(q.num, 1, g.den);
    }
  }

  lemma PauseMonotone(g: Rat, j: nat, k: nat)
    requires g.den > 0 && j <= k && Pause(g, j) > 0
    ensures Pause(g, k) > 0
  {
    PausePositive(g, j);
    PausePositive(g, k);
    MulMonotone(j, k, g.num);
    assert g.num * j == j * g.num && g.num * k == k * g.num;
  }

  // ---------- the cycle ----------

  /** What an exact cycle of reduced periods is. */
  ghost predicate Cycle(streams: seq<TimeDriven>, g: Rat, n: nat, layer: nat -> nat, deadlines: seq<Deadline>,
                        gaps: seq<nat>) {
    && ReducedPeriods(streams) && GcdOfPeriods(streams, g) && n > 0
    && ExactCycle(streams, g, n, layer, deadlines, gaps)
    && forall i | 0 <= i < |streams| :: PeriodFits(streams[i].period, g, n)
  }

  ghost function Steps(streams: seq<TimeDriven>, g: Rat, i: nat): nat
    requires i < |streams| && ReducedPeriods(streams) && Positive(g)
  {
    StepsOf(g, streams[i].period)
  }

  /** Before the first deadline and at each deadline some stream has a multiple of its period. */
  lemma StreamAt(streams: seq<TimeDriven>, g: Rat, n: nat, layer: nat -> nat, deadlines: seq<Deadline>, gaps: seq<nat>,
                 m: nat)
    returns (i: nat)
    requires Cycle(streams, g, n, layer, deadlines, gaps) && 0 < m <= |gaps|
    ensures i < |streams| && Divides(Steps(streams, g, i), Elapsed(gaps, m))
  {
    var deadline := deadlines[m - 1];
    assert DeadlineExact(streams, g, layer, deadline, gaps[m - 1], Elapsed(gaps, m - 1 + 1));
    assert deadline.due[0] in deadline.due;
    i :| 0 <= i < |streams| && streams[i].reference == deadline.due[0];
    assert multiset(deadline.due)[streams[i].reference] > 0;
    assert PeriodFits(streams[i].period, g, n);
    DueIffDivides(g, streams[i].period, Elapsed(gaps, m));
  }

  /** Every gap is a multiple of the gcd of two periods. */
  lemma GapIsDifference(streams: seq<TimeDriven>, g: Rat, n: nat, layer: nat -> nat, deadlines: seq<Deadline>,
                        gaps: seq<nat>, m: nat)
    returns (i: nat, j: nat)
    requires Cycle(streams, g, n, layer, deadlines, gaps) && m < |gaps|
    ensures i < |streams| && j < |streams|
    ensures Divides(Gcd(Steps(streams, g, i), Steps(streams, g, j)), gaps[m])
  {
    j := StreamAt(streams, g, n, layer, deadlines, gaps, m + 1);
    i := j;
    var s := Steps(streams, g, j);
    if m > 0 {
      i := StreamAt(streams, g, n, layer, deadlines, gaps, m);
    } else {
      DividesIntro(s, 0, 0);
    }
    var d := Gcd(Steps(streams, g, i), s);
    GcdDivides(Steps(streams, g, i), s);
    DividesTransitiveAny(d, Steps(streams, g, i), Elapsed(gaps, m));
    DividesTransitiveAny(d, s, Elapsed(gaps, m + 1));
    DividesCombination(d, Elapsed(gaps, m + 1), Elapsed(gaps, m), 1, -1);
  }

  lemma DividesTransitiveAny(a: nat, b: nat, c: nat)
    requires Divides(a, b) && Divides(b, c)
    ensures Divides(a, c)
  {
    DividesTransitive(a, b, c);
  }

  lemma {:induction false} ElapsedGrows(gaps: seq<nat>, a: nat, b: nat)
    requires a < b <= |gaps|
    ensures Elapsed(gaps, a) + gaps[b - 1] <= Elapsed(gaps, b)
    decreases b
  {
    if a < b - 1 {
      ElapsedGrows(gaps, a, b - 1);
    }
  }

  /** Where a stream has a multiple of its period there is a deadline, or the start. */
  lemma DeadlineAtMultiple(streams: seq<TimeDriven>, g: Rat, n: nat, layer: nat -> nat, deadlines: seq<Deadline>,
                           gaps: seq<nat>, i: nat, at: nat)
    returns (m: nat)
    requires Cycle(streams, g, n, layer, deadlines, gaps) && i < |streams| && at <= n
    requires Divides(Steps(streams, g, i), at)
    ensures m <= |gaps| && Elapsed(gaps, m) == at && (at > 0 ==> m > 0)
  {
    if at == 0 {
      m := 0;
    } else {
      assert PeriodFits(streams[i].period, g, n);
      DueIffDivides(g, streams[i].period, at);
      assert HasDeadline(gaps, at);
      m :| 1 <= m <= |gaps| && Elapsed(gaps, m) == at;
    }
  }

  lemma {:induction false} ElapsedOrder(gaps: seq<nat>, a: nat, b: nat)
    requires a <= |gaps| && b <= |gaps| && Elapsed(gaps, a) < Elapsed(gaps, b)
    ensures a < b
  {
    if b < a {
      ElapsedGrows(gaps, b, a);
    }
  }

  /** Within the cycle, two multiples of two periods are apart by exactly their gcd: some gap is at most that. */
  lemma GcdGap(streams: seq<TimeDriven>, g: Rat, n: nat, layer: nat -> nat, deadlines: seq<Deadline>, gaps: seq<nat>,
               i: nat, j: nat)
    returns (m: nat)
    requires Cycle(streams, g, n, layer, deadlines, gaps) && i < |streams| && j < |streams|
    ensures m < |gaps| && gaps[m] <= Gcd(Steps(streams, g, i), Steps(streams, g, j))
  {
    StepsFit(streams, g, n, layer, deadlines, gaps, i);
    StepsFit(streams, g, n, layer, deadlines, gaps, j);
    var late, early := MultiplesApart(Steps(streams, g, i), Steps(streams, g, j), n);
    var b := DeadlineAtMultiple(streams, g, n, layer, deadlines, gaps, i, late);
    var a := DeadlineAtMultiple(streams, g, n, layer, deadlines, gaps, j, early);
    m := GapBetween(gaps, a, b);
  }

  lemma StepsFit(streams: seq<TimeDriven>, g: Rat, n: nat, layer: nat -> nat, deadlines: seq<Deadline>, gaps: seq<nat>,
                 i: nat)
    requires Cycle(streams, g, n, layer, deadlines, gaps) && i < |streams|
    ensures Divides(Steps(streams, g, i), n) && Steps(streams, g, i) > 0
  {
    assert PeriodFits(streams[i].period, g, n);
  }

  /** The gap that ends at the later deadline is at most the distance of the two. */
  lemma GapBetween(gaps: seq<nat>, a: nat, b: nat) returns (m: nat)
    requires a <= |gaps| && b <= |gaps| && Elapsed(gaps, a) < Elapsed(gaps, b)
    ensures m < |gaps| && gaps[m] <= Elapsed(gaps, b) - Elapsed(gaps, a)
  {
    ElapsedOrder(gaps, a, b);
    ElapsedGrows(gaps, a, b);
    m := b - 1;
  }

  /** Up to a common multiple, multiples of two numbers that are apart by exactly their gcd. */
  lemma MultiplesApart(s: nat, t: nat, n: nat) returns (late: nat, early: nat)
    requires s > 0 && t > 0 && n > 0 && Divides(s, n) && Divides(t, n)
    ensures Divides(s, late) && Divides(t, early) && early < late <= n && late - early == Gcd(s, t)
  {
    var k, l := GcdStep(s, t);
    late, early := k * s, l * t;
    GcdDivides(s, t);
    LcmUniversal(s, t, n);
    DividesBounds(Lcm(s, t), n);
    DividesIntro(s, late, k);
    DividesIntro(t, early, l);
  }

  /** The pause over the gcd of two periods is positive exactly if that gcd is at least a nanosecond. */
  lemma PairPause(streams: seq<TimeDriven>, g: Rat, n: nat, layer: nat -> nat, deadlines: seq<Deadline>, gaps: seq<nat>,
                  i: nat, j: nat)
    requires Cycle(streams, g, n, layer, deadlines, gaps) && i < |streams| && j < |streams|
    ensures AtLeastOne(RationalGcd(streams[i].period, streams[j].period))
            <==> Pause(g, Gcd(Steps(streams, g, i), Steps(streams, g, j))) > 0
  {
    assert PeriodFits(streams[i].period, g, n) && PeriodFits(streams[j].period, g, n);
    GcdSteps(g, streams[i].period, streams[j].period);
    AtLeastOneIff(g, RationalGcd(streams[i].period, streams[j].period));
  }

  lemma GapPositiveIfApart(streams: seq<TimeDriven>, g: Rat, n: nat, layer: nat -> nat, deadlines: seq<Deadline>,
                           gaps: seq<nat>, m: nat)
    requires Cycle(streams, g, n, layer, deadlines, gaps) && PairsApart(streams) && m < |deadlines|
    ensures deadlines[m].pause > 0
  {
    assert DeadlineExact(streams, g, layer, deadlines[m], gaps[m], Elapsed(gaps, m + 1));
    var i, j := GapIsDifference(streams, g, n, layer, deadlines, gaps, m);
    PairPause(streams, g, n, layer, deadlines, gaps, i, j);
    DividesBounds(Gcd(Steps(streams, g, i), Steps(streams, g, j)), gaps[m]);
    PauseMonotone(g, Gcd(Steps(streams, g, i), Steps(streams, g, j)), gaps[m]);
  }

  lemma PairApartIfPositive(streams: seq<TimeDriven>, g: Rat, n: nat, layer: nat -> nat, deadlines: seq<Deadline>,
                            gaps: seq<nat>, i: nat, j: nat)
    requires Cycle(streams, g, n, layer, deadlines, gaps) && i < |streams| && j < |streams|
    requires forall m | 0 <= m < |deadlines| :: deadlines[m].pause > 0
    ensures AtLeastOne(RationalGcd(streams[i].period, streams[j].period))
  {
    var m := GcdGap(streams, g, n, layer, deadlines, gaps, i, j);
    assert DeadlineExact(streams, g, layer, deadlines[m], gaps[m], Elapsed(gaps, m + 1));
    PauseMonotone(g, gaps[m], Gcd(Steps(streams, g, i), Steps(streams, g, j)));
    PairPause(streams, g, n, layer, deadlines, gaps, i, j);
  }

  /**
   Exactly when no pause is zero: every pause of a cycle is positive if and only if any two periods
   have a greatest common divisor of at least a nanosecond.
   */
  lemma PausesPositiveIff(streams: seq<TimeDriven>, g: Rat, n: nat, layer: nat -> nat, deadlines: seq<Deadline>,
                          gaps: seq<nat>)
    requires Cycle(streams, g, n, layer, deadlines, gaps)
    ensures (forall m | 0 <= m < |deadlines| :: deadlines[m].pause > 0) <==> PairsApart(streams)
  {
    if PairsApart(streams) {
      forall m | 0 <= m < |deadlines| ensures deadlines[m].pause > 0 {
        GapPositiveIfApart(streams, g, n, layer, deadlines, gaps, m);
      }
    }
    if forall m | 0 <= m < |deadlines| :: deadlines[m].pause > 0 {
      forall i, j | 0 <= i < |streams| && 0 <= j < |streams|
        ensures AtLeastOne(RationalGcd(streams[i].period, streams[j].period))
      {
        PairApartIfPositive(streams, g, n, layer, deadlines, gaps, i, j);
      }
    }
  }

  lemma {:induction false} FirstGapLeast(gaps: seq<nat>, m: nat)
    requires 1 <= m <= |gaps|
    ensures gaps[0] <= Elapsed(gaps, m)
  {
    if m > 1 {
      FirstGapLeast(gaps, m - 1);
    }
  }

  /** A period of less than a nanosecond makes the first pause vanish. */
  lemma ShortPeriodVanishes(streams: seq<TimeDriven>, g: Rat, n: nat, layer: nat -> nat, deadlines: seq<Deadline>,
                            gaps: seq<nat>, i: nat)
    requires Cycle(streams, g, n, layer, deadlines, gaps) && i < |streams| && !AtLeastOne(streams[i].period)
    ensures deadlines != [] && deadlines[0].pause == 0
  {
    var s := Steps(streams, g, i);
    assert PeriodFits(streams[i].period, g, n);
    DividesIntro(s, s, 1);
    var m := DeadlineAtMultiple(streams, g, n, layer, deadlines, gaps, i, s);
    FirstGapLeast(gaps, m);
    AtLeastOneIff(g, streams[i].period);
    if Pause(g, gaps[0]) > 0 {
      PauseMonotone(g, gaps[0], s);
    }
    assert DeadlineExact(streams, g, layer, deadlines[0], gaps[0], Elapsed(gaps, 1));
  }
}
