/**
 Programs whose periodic outputs all have one frequency: they have a schedule, without zero pauses up
 to a gigahertz.
 */
module OneFrequency {
  import opened Numbers
  import opened Rationals
  import opened Clocks
  import opened Schedules
  import opened ScheduleCycles
  import opened ZeroPauses
  import opened Lowering
  import opened Pipeline

  ghost predicate OnePeriod(streams: seq<TimeDriven>, period: Rat) {
    streams != [] && Reduced(period) && forall i | 0 <= i < |streams| :: streams[i].period == period
  }

  /** If the period measures a whole number of nanoseconds `j` times, the hyper period has at most `j` steps. */
  lemma StepsOfOne(streams: seq<TimeDriven>, period: Rat, whole: Rat, j: nat, g: Rat, h: Rat, n: nat)
    requires OnePeriod(streams, period) && Reduced(whole) && whole.den == 1 && IsMultiple(whole, period, j)
    requires GcdOfPeriods(streams, g) && HyperPeriodOf(streams, h) && IsMultiple(h, g, n)
    ensures n <= j
  {
    MeasuredByOne(whole);
    MeasuresReflexive(period);
    assert Measures(period, whole) && Measures(h, whole);
    var k: nat :| IsMultiple(whole, h, k);
    assert Measures(period, g);
    var l: nat :| IsMultiple(g, period, l);
    StepsBound(period, g, h, whole, k, l, n, j);
  }

  lemma StepsBound(period: Rat, g: Rat, h: Rat, whole: Rat, k: nat, l: nat, n: nat, j: nat)
    requires Positive(g) && Positive(h) && Positive(period) && Positive(whole) && h.den == 1 && whole.den == 1
    requires IsMultiple(whole, h, k) && IsMultiple(g, period, l) && IsMultiple(h, g, n) && IsMultiple(whole, period, j)
    ensures n <= j
  {
    MultipleTransitive(whole, h, g, k, n);
    MultipleTransitive(whole, g, period, k * n, l);
    SameMultiple(whole, period, k * n * l, j);
    if n > j {
      MulMonotone(1, k, n);
      assert k * n >= n;
      MulMonotone(1, l, k * n);
    }
  }

  /** Any two of equal periods are apart exactly if the period is at least a nanosecond. */
  lemma EqualPeriodsApart(streams: seq<TimeDriven>, period: Rat)
    requires OnePeriod(streams, period)
    ensures ReducedPeriods(streams) && (PairsApart(streams) <==> AtLeastOne(period))
  {
    var q := RationalGcd(period, period);
    RationalGcdShape(period, period);
    MeasuresReflexive(period);
    MeasuresReflexive(q);
    RationalGcdUniversal(period, period, period);
    RationalGcdUniversal(period, period, q);
    var k: nat :| IsMultiple(q, period, k);
    var l: nat :| IsMultiple(period, q, l);
    Grows(q, period, k);
    Grows(period, q, l);
    if PairsApart(streams) {
      assert AtLeastOne(RationalGcd(streams[0].period, streams[0].period));
    }
  }

  lemma Grows(a: Rat, b: Rat, k: nat)
    requires Positive(a) && Positive(b) && IsMultiple(a, b, k)
    ensures AtLeastOne(b) ==> AtLeastOne(a)
  {
    if AtLeastOne(b) && a.num < a.den {
      ProductPositive(a.num, b.den);
      MulMonotone(a.num, a.den - 1, b.den);
      MulMonotone(1, k, b.num * a.den);
      MulMonotone(b.den, b.num, a.den);
    }
  }

  /** All periodic outputs, and there is one, have the frequency. */
  ghost predicate RunsAt(p: Program, freq: Rat) {
    && (exists o :: 0 <= o < |p.outputs| && p.outputs[o].clock.RealTime?)
    && forall o | 0 <= o < |p.outputs| && p.outputs[o].clock.RealTime? :: p.outputs[o].clock.freq == freq
  }

  lemma OnePeriodOf(p: Program, freq: Rat)
    requires Checked(p) && RunsAt(p, freq)
    ensures Positive(freq) && OnePeriod(TimeDrivenOf(p, |p.outputs|), PeriodOf(freq))
  {
    var streams := TimeDrivenOf(p, |p.outputs|);
    TimeDrivenMembers(p, |p.outputs|);
    var o :| 0 <= o < |p.outputs| && p.outputs[o].clock.RealTime?;
    assert ClockInferred(p.outputs[o].clock);
    NewRatReduced(NANOSECONDS * freq.den, freq.num);
  }

  /**
   Such a program has a schedule if the numerator of its frequency is below the limit of steps, and then
   no pause is zero exactly if the frequency is at most a gigahertz.
   */
  lemma OneFrequencyScheduled(p: Program, freq: Rat)
    requires Checked(p) && RunsAt(p, freq)
    ensures freq.num < 10_000_000 ==> !TooManySteps(p)
    ensures ReducedPeriods(TimeDrivenOf(p, |p.outputs|))
    ensures PairsApart(TimeDrivenOf(p, |p.outputs|)) <==> freq.num <= 1_000_000_000 * freq.den
  {
    var streams, period := TimeDrivenOf(p, |p.outputs|), PeriodOf(freq);
    OnePeriodOf(p, freq);
    EqualPeriodsApart(streams, period);
    PeriodBounds(freq);
    if TooManySteps(p) {
      var g, h, n: nat :| GcdOfPeriods(streams, g) && HyperPeriodOf(streams, h) && IsMultiple(h, g, n)
          && n >= MAX_STEPS;
      WholeReduced(period.num);
      StepsOfOne(streams, period, Rat(period.num, 1), period.den, g, h, n);
    }
  }

  lemma WholeReduced(n: nat)
    requires n > 0
    ensures Reduced(Rat(n, 1))
  {
    assert Bezout(n, 1, 0, 1, 1);
  }

  lemma PeriodBounds(freq: Rat)
    requires Positive(freq)
    ensures PeriodOf(freq).den <= freq.num
    ensures AtLeastOne(PeriodOf(freq)) <==> freq.num <= NANOSECONDS * freq.den
  {
    var n := NANOSECONDS * freq.den;
    NewRatReduced(n, freq.num);
    DenominatorShrinks(n, freq.num);
    Compare(PeriodOf(freq).num, PeriodOf(freq).den, n, freq.num);
  }

  lemma DenominatorShrinks(n: nat, d: nat)
    requires n > 0 && d > 0
    ensures NewRat(n, d).den <= d
  {
    GcdDivides(n, d);
    Shrinks(d, Gcd(n, d));
  }

  lemma Shrinks(d: nat, k: nat)
    requires k > 0
    ensures d / k <= d
  {
    var q, r := d / k, d % k;
    MulMonotone(1, k, q);
    assert d == k * q + r;
  }

  lemma Compare(a: nat, b: nat, c: nat, d: nat)
    requires a * d == c * b && a > 0 && b > 0 && c > 0 && d > 0
    ensures a >= b <==> d <= c
  {
    if a >= b && d > c {
      MulMonotone(b, a, d);
      MulMonotone(c + 1, d, b);
      MulDistributes(c, 1, b);
    }
    if a < b && d <= c {
      MulMonotone(a + 1, b, c);
      MulMonotone(d, c, a);
      MulDistributes(a, 1, c);
    }
  }
}
