/**
 When the outputs of a program are evaluated: an output with a frequency has its turn at exactly the
 deadlines whose exact time is a whole number of its periods, and every such time has a deadline.
 */
module ProgramReplays {
  import opened Values
  import opened Sequences
  import opened Numbers
  import opened Rationals
  import opened Clocks
  import opened Schedules
  import opened ScheduleCycles
  import opened ZeroPauses
  import opened Lowering
  import opened Pipeline
  import opened Controller
  import opened Replays
  import OneFrequency

  predicate Periodic(p: Program, o: nat) {
    o < |p.outputs| && p.outputs[o].clock.RealTime?
  }

  /** The time of `j` steps of `g` nanoseconds is that of the `m`-th beat of the frequency, `m / freq` seconds. */
  predicate IsBeat(freq: Rat, g: Rat, j: nat, m: nat) {
    g.num * j * freq.num == m * 1_000_000_000 * g.den * freq.den
  }

  ghost predicate OnBeat(freq: Rat, g: Rat, j: nat) {
    exists m: nat :: IsBeat(freq, g, j, m)
  }

  /** Both sides of an equation may be multiplied by a positive number. */
  lemma Cancels(x: nat, y: nat, n: nat)
    requires n > 0
    ensures x * n == y * n <==> x == y
  {
    if x * n == y * n {
      MulCancel(x, y, n);
    }
  }

  /** A number of steps is a beat exactly if it is that many periods. */
  lemma BeatIsMultiple(freq: Rat, g: Rat, j: nat, m: nat)
    requires Positive(freq) && Positive(g)
    ensures Positive(PeriodOf(freq))
    ensures IsMultiple(StepTime(g, j), PeriodOf(freq), m) <==> IsBeat(freq, g, j, m)
  {
    PeriodExact(freq);
    var period := PeriodOf(freq);
    Rescale(g.num * j, m * g.den, period.num, period.den, freq.num, 1_000_000_000 * freq.den);
    assert m * period.num * g.den == m * g.den * period.num;
    assert m * 1_000_000_000 * g.den * freq.den == m * g.den * (1_000_000_000 * freq.den);
  }

  lemma Rescale(a: nat, b: nat, x: nat, y: nat, f: nat, s: nat)
    requires x > 0 && y > 0 && f > 0 && x * f == s * y
    ensures a * y == b * x <==> a * f == b * s
  {
    Cancels(a * y, b * x, f);
    Cancels(a * f, b * s, y);
    Regrouped(a, y, f);
    Grouped(b, x, f);
    Grouped(b, s, y);
  }

  lemma Regrouped(a: nat, b: nat, c: nat)
    ensures a * b * c == a * c * b
  {
    Grouped(a, b, c);
    Grouped(a, c, b);
  }

  lemma Grouped(a: nat, b: nat, c: nat)
    ensures a * b * c == a * (b * c)
  {
  }

  lemma OnBeatIff(freq: Rat, g: Rat, j: nat)
    requires Positive(freq) && Positive(g)
    ensures Positive(PeriodOf(freq))
    ensures Measures(PeriodOf(freq), StepTime(g, j)) <==> OnBeat(freq, g, j)
  {
    PeriodExact(freq);
    if Measures(PeriodOf(freq), StepTime(g, j)) {
      var m: nat :| IsMultiple(StepTime(g, j), PeriodOf(freq), m);
      BeatIsMultiple(freq, g, j, m);
    }
    if OnBeat(freq, g, j) {
      var m: nat :| IsBeat(freq, g, j, m);
      BeatIsMultiple(freq, g, j, m);
    }
  }

  // ---------- the replay of a program ----------

  /** The pause before deadline `k` is the exact one without its fraction. */
  ghost predicate PauseTruncated(deadlines: seq<Deadline>, g: Rat, gaps: seq<nat>, k: nat)
    requires deadlines != [] && gaps != [] && k > 0
  {
    var pause := DeadlineTime(deadlines, k) - DeadlineTime(deadlines, k - 1);
    pause * g.den <= g.num * (StepAt(gaps, k) - StepAt(gaps, k - 1)) < (pause + 1) * g.den
  }

  /** The step of deadline `k` is later than that before it, and its time is kept up to `k` nanoseconds. */
  ghost predicate Timely(deadlines: seq<Deadline>, g: Rat, gaps: seq<nat>, k: nat)
    requires deadlines != [] && gaps != []
  {
    && (k > 0 ==> StepAt(gaps, k - 1) < StepAt(gaps, k) && PauseTruncated(deadlines, g, gaps, k))
    && DeadlineTime(deadlines, k) * g.den <= g.num * StepAt(gaps, k)
    && (k > 0 ==> g.num * StepAt(gaps, k) < (DeadlineTime(deadlines, k) + k) * g.den)
    && (g.den == 1 ==> DeadlineTime(deadlines, k) == g.num * StepAt(gaps, k))
  }

  /** At every deadline some outputs are due, once each: exactly those on a beat of their frequency. */
  ghost predicate DueOnBeat(p: Program, deadlines: seq<Deadline>, g: Rat, gaps: seq<nat>, k: nat)
    requires deadlines != [] && gaps != []
  {
    && DueAt(deadlines, k) != [] && NoDuplicates(DueAt(deadlines, k))
    && forall o: nat :: o in DueAt(deadlines, k) <==>
                        Periodic(p, o) && OnBeat(p.outputs[o].clock.freq, g, StepAt(gaps, k))
  }

  /** The `m`-th beat of an output has its deadline. */
  ghost predicate HasBeat(freq: Rat, g: Rat, gaps: seq<nat>, m: nat)
    requires gaps != []
  {
    exists k: nat :: IsBeat(freq, g, StepAt(gaps, k), m)
  }

  /** The replay of the deadlines evaluates the outputs of the program at their frequencies. */
  ghost predicate KeepsTime(p: Program, deadlines: seq<Deadline>, g: Rat, gaps: seq<nat>) {
    && Positive(g) && deadlines != [] && gaps != []
    && (forall k: nat :: Timely(deadlines, g, gaps, k))
    && (forall k: nat :: DueOnBeat(p, deadlines, g, gaps, k))
    && (forall o: nat, m: nat | Periodic(p, o) :: HasBeat(p.outputs[o].clock.freq, g, gaps, m))
  }

  /** The cycle of a program's schedule. */
  ghost predicate ProgramCycle(p: Program, table: map<nat, nat>, deadlines: seq<Deadline>, g: Rat, n: nat,
                               gaps: seq<nat>) {
    && Checked(p) && ClocksInferred(p)
    && Cycle(TimeDrivenOf(p, |p.outputs|), g, n, LayerOf(p, table), deadlines, gaps)
  }

  lemma StreamOfOutput(p: Program, o: nat) returns (i: nat)
    requires Checked(p) && Periodic(p, o)
    ensures i < |TimeDrivenOf(p, |p.outputs|)|
    ensures TimeDrivenOf(p, |p.outputs|)[i] == TimeDriven(o, PeriodOf(p.outputs[o].clock.freq))
    ensures Positive(p.outputs[o].clock.freq)
  {
    TimeDrivenMembers(p, |p.outputs|);
    assert ClockInferred(p.outputs[o].clock);
    i :| 0 <= i < |TimeDrivenOf(p, |p.outputs|)|
         && TimeDrivenOf(p, |p.outputs|)[i] == TimeDriven(o, PeriodOf(p.outputs[o].clock.freq));
  }

  lemma OutputDue(p: Program, table: map<nat, nat>, deadlines: seq<Deadline>, g: Rat, n: nat, gaps: seq<nat>, k: nat,
                  o: nat)
    requires ProgramCycle(p, table, deadlines, g, n, gaps) && Periodic(p, o)
    ensures deadlines != [] && gaps != []
    ensures o in DueAt(deadlines, k) <==> OnBeat(p.outputs[o].clock.freq, g, StepAt(gaps, k))
  {
    var i := StreamOfOutput(p, o);
    DueExactly(TimeDrivenOf(p, |p.outputs|), g, n, LayerOf(p, table), deadlines, gaps, i, k);
    OnBeatIff(p.outputs[o].clock.freq, g, StepAt(gaps, k));
  }

  /** Only periodic outputs are due, once each. */
  lemma OnlyPeriodicDue(p: Program, table: map<nat, nat>, deadlines: seq<Deadline>, g: Rat, n: nat, gaps: seq<nat>,
                        k: nat)
    requires ProgramCycle(p, table, deadlines, g, n, gaps) && gaps != [] && deadlines != []
    ensures DueAt(deadlines, k) != [] && NoDuplicates(DueAt(deadlines, k))
    ensures forall o | o in DueAt(deadlines, k) :: Periodic(p, o)
  {
    var streams := TimeDrivenOf(p, |p.outputs|);
    var m := InCycle(|gaps|, k);
    DueOfDeadline(deadlines, k);
    DueDistinct(streams, g, LayerOf(p, table), deadlines[m], gaps[m], Elapsed(gaps, m + 1));
    DuePeriodic(p, g, LayerOf(p, table), deadlines[m], gaps[m], Elapsed(gaps, m + 1));
  }

  lemma DuePeriodic(p: Program, g: Rat, layer: nat -> nat, deadline: Deadline, gap: nat, step: nat)
    requires Checked(p) && g.den > 0
    requires DeadlineExact(TimeDrivenOf(p, |p.outputs|), g, layer, deadline, gap, step)
    ensures forall o | o in deadline.due :: Periodic(p, o)
  {
    var streams := TimeDrivenOf(p, |p.outputs|);
    TimeDrivenMembers(p, |p.outputs|);
    forall o | o in deadline.due ensures Periodic(p, o) {
      var i :| 0 <= i < |streams| && streams[i].reference == o;
    }
  }

  lemma MultipleOfSteps(g: Rat, period: Rat, steps: nat, m: nat)
    requires IsMultiple(period, g, steps)
    ensures IsMultiple(StepTime(g, m * steps), period, m)
  {
    var a, b := steps * g.num * period.den, period.num * g.den;
    assert g.num * (m * steps) * period.den == m * a;
    assert m * period.num * g.den == m * b;
  }

  lemma BeatReached(p: Program, table: map<nat, nat>, deadlines: seq<Deadline>, g: Rat, n: nat, gaps: seq<nat>, o: nat,
                    m: nat)
    requires ProgramCycle(p, table, deadlines, g, n, gaps) && Periodic(p, o)
    ensures gaps != [] && HasBeat(p.outputs[o].clock.freq, g, gaps, m)
  {
    var i := StreamOfOutput(p, o);
    var k := MultipleReached(TimeDrivenOf(p, |p.outputs|), g, n, LayerOf(p, table), deadlines, gaps, i, m);
    BeatIsMultiple(p.outputs[o].clock.freq, g, StepAt(gaps, k), m);
  }

  /** The `m`-th multiple of a period has its deadline. */
  lemma MultipleReached(streams: seq<TimeDriven>, g: Rat, n: nat, layer: nat -> nat, deadlines: seq<Deadline>,
                        gaps: seq<nat>, i: nat, m: nat) returns (k: nat)
    requires Cycle(streams, g, n, layer, deadlines, gaps) && i < |streams|
    ensures Positive(g) && gaps != [] && IsMultiple(StepTime(g, StepAt(gaps, k)), streams[i].period, m)
  {
    var j := StepsOfMultiple(streams, g, i, m);
    k := EveryMultipleHasDeadline(streams, g, n, layer, deadlines, gaps, i, j);
    CycleParts(streams, g, n, layer, deadlines, gaps, i);
  }

  lemma StepsOfMultiple(streams: seq<TimeDriven>, g: Rat, i: nat, m: nat) returns (j: nat)
    requires ReducedPeriods(streams) && GcdOfPeriods(streams, g) && i < |streams|
    ensures IsMultiple(StepTime(g, j), streams[i].period, m)
  {
    GcdMeasuresPeriods(streams, g);
    StepsOfMeasured(g, streams[i].period);
    var steps := StepsOf(g, streams[i].period);
    MultipleOfSteps(g, streams[i].period, steps, m);
    j := m * steps;
  }

  lemma StepsAscend(p: Program, table: map<nat, nat>, deadlines: seq<Deadline>, g: Rat, n: nat, gaps: seq<nat>, k: nat)
    requires ProgramCycle(p, table, deadlines, g, n, gaps) && gaps != [] && deadlines != []
    ensures Timely(deadlines, g, gaps, k)
  {
    ReplayLag(g, deadlines, gaps, k);
    if k > 0 {
      var m := (k - 1) % |gaps|;
      assert DeadlineExact(TimeDrivenOf(p, |p.outputs|), g, LayerOf(p, table), deadlines[m], gaps[m],
                           Elapsed(gaps, m + 1));
      PauseRounding(g, gaps[m]);
    }
  }

  /** The schedule of every program with periodic outputs keeps their time, for ever. */
  lemma ReplayKeepsTime(p: Program, table: map<nat, nat>, deadlines: seq<Deadline>)
    returns (g: Rat, gaps: seq<nat>)
    requires Checked(p) && IsScheduleOf(p, table, deadlines) && exists o :: Periodic(p, o)
    ensures KeepsTime(p, deadlines, g, gaps)
  {
    var o :| Periodic(p, o);
    var i := StreamOfOutput(p, o);
    var n;
    g, n, gaps := ScheduleCycle(p, table, deadlines);
    CycleParts(TimeDrivenOf(p, |p.outputs|), g, n, LayerOf(p, table), deadlines, gaps, i);
    forall k: nat ensures Timely(deadlines, g, gaps, k) {
      StepsAscend(p, table, deadlines, g, n, gaps, k);
    }
    forall k: nat ensures DueOnBeat(p, deadlines, g, gaps, k) {
      OnlyPeriodicDue(p, table, deadlines, g, n, gaps, k);
      forall x: nat | Periodic(p, x)
        ensures x in DueAt(deadlines, k) <==> OnBeat(p.outputs[x].clock.freq, g, StepAt(gaps, k))
      {
        OutputDue(p, table, deadlines, g, n, gaps, k, x);
      }
    }
    forall x: nat, m: nat | Periodic(p, x) ensures HasBeat(p.outputs[x].clock.freq, g, gaps, m) {
      BeatReached(p, table, deadlines, g, n, gaps, x, m);
    }
  }

  // ---------- one frequency ----------

  lemma BeatUnique(freq: Rat, g: Rat, i: nat, j: nat, m: nat, l: nat)
    requires Positive(freq) && Positive(g) && IsBeat(freq, g, i, m) && IsBeat(freq, g, j, l)
    ensures i < j <==> m < l
  {
    var a, b := g.num * freq.num, 1_000_000_000 * g.den * freq.den;
    assert a * i == b * m && a * j == b * l;
    ProductPositive(g.num, freq.num);
    ProductPositive(g.den, freq.den);
    SameOrder(a, b, i, j, m, l);
  }

  lemma SameOrder(a: nat, b: nat, i: nat, j: nat, m: nat, l: nat)
    requires a > 0 && b > 0 && a * i == b * m && a * j == b * l
    ensures i < j <==> m < l
  {
    assert a * (j - i) == b * (l - m);
    assert a * (j - i) > 0 <==> j - i > 0;
    assert b * (l - m) > 0 <==> l - m > 0;
  }

  lemma {:induction false} StepsIncrease(p: Program, deadlines: seq<Deadline>, g: Rat, gaps: seq<nat>, i: nat, j: nat)
    requires KeepsTime(p, deadlines, g, gaps) && i < j
    ensures StepAt(gaps, i) < StepAt(gaps, j)
  {
    assert Timely(deadlines, g, gaps, j);
    if i < j - 1 {
      StepsIncrease(p, deadlines, g, gaps, i, j - 1);
    }
  }

  /** If all periodic outputs have one frequency, deadline `k` is its `k`-th beat. */
  lemma {:induction false} EveryBeat(p: Program, freq: Rat, deadlines: seq<Deadline>, g: Rat, gaps: seq<nat>, k: nat)
    requires OneFrequency.RunsAt(p, freq) && Positive(freq) && KeepsTime(p, deadlines, g, gaps)
    ensures IsBeat(freq, g, StepAt(gaps, k), k)
  {
    if k > 0 {
      EveryBeat(p, freq, deadlines, g, gaps, k - 1);
      var m := BeatAt(p, freq, deadlines, g, gaps, k);
      assert Timely(deadlines, g, gaps, k);
      BeatUnique(freq, g, StepAt(gaps, k - 1), StepAt(gaps, k), k - 1, m);
      if m > k {
        NoneBetween(p, freq, deadlines, g, gaps, k, m);
      }
    }
  }

  lemma BeatAt(p: Program, freq: Rat, deadlines: seq<Deadline>, g: Rat, gaps: seq<nat>, k: nat) returns (m: nat)
    requires OneFrequency.RunsAt(p, freq) && KeepsTime(p, deadlines, g, gaps)
    ensures IsBeat(freq, g, StepAt(gaps, k), m)
  {
    assert DueOnBeat(p, deadlines, g, gaps, k);
    var o := DueAt(deadlines, k)[0];
    assert o in DueAt(deadlines, k) && OnBeat(freq, g, StepAt(gaps, k));
    m :| IsBeat(freq, g, StepAt(gaps, k), m);
  }

  lemma NoneBetween(p: Program, freq: Rat, deadlines: seq<Deadline>, g: Rat, gaps: seq<nat>, k: nat, m: nat)
    requires OneFrequency.RunsAt(p, freq) && Positive(freq) && KeepsTime(p, deadlines, g, gaps) && k > 0
    requires IsBeat(freq, g, StepAt(gaps, k - 1), k - 1) && IsBeat(freq, g, StepAt(gaps, k), m)
    ensures m <= k
  {
    var o: nat :| o < |p.outputs| && p.outputs[o].clock.RealTime?;
    assert Periodic(p, o) && HasBeat(freq, g, gaps, k);
    var l: nat :| IsBeat(freq, g, StepAt(gaps, l), k);
    BeatUnique(freq, g, StepAt(gaps, k - 1), StepAt(gaps, l), k - 1, k);
    BeatUnique(freq, g, StepAt(gaps, l), StepAt(gaps, k), k, m);
    if l < k - 1 {
      StepsIncrease(p, deadlines, g, gaps, l, k - 1);
    } else if l > k {
      StepsIncrease(p, deadlines, g, gaps, k, l);
    }
  }

  /** A pause of a whole number of nanoseconds is kept. */
  lemma WholePause(g: Rat, freq: Rat, period: nat, deadlines: seq<Deadline>, gaps: seq<nat>, k: nat)
    requires Positive(g) && Positive(freq) && period * freq.num == 1_000_000_000 * freq.den
    requires deadlines != [] && gaps != [] && k > 0 && PauseTruncated(deadlines, g, gaps, k)
    requires IsBeat(freq, g, StepAt(gaps, k - 1), k - 1) && IsBeat(freq, g, StepAt(gaps, k), k)
    ensures DeadlineTime(deadlines, k) == DeadlineTime(deadlines, k - 1) + period
  {
    var i, j := StepAt(gaps, k - 1), StepAt(gaps, k);
    BeatInPeriods(g, freq, period, i, k - 1);
    BeatInPeriods(g, freq, period, j, k);
    assert g.num * (j - i) == period * g.den;
    FloorUnique(DeadlineTime(deadlines, k) - DeadlineTime(deadlines, k - 1), period, g.den);
  }

  lemma BeatInPeriods(g: Rat, freq: Rat, period: nat, j: nat, m: nat)
    requires Positive(g) && Positive(freq) && period * freq.num == 1_000_000_000 * freq.den && IsBeat(freq, g, j, m)
    ensures g.num * j == m * period * g.den
  {
    assert m * 1_000_000_000 * g.den * freq.den == m * g.den * (1_000_000_000 * freq.den);
    assert m * g.den * (period * freq.num) == m * period * g.den * freq.num;
    Cancels(g.num * j, m * period * g.den, freq.num);
  }

  lemma FloorUnique(a: nat, b: nat, d: nat)
    requires d > 0 && a * d <= b * d < (a + 1) * d
    ensures a == b
  {
    if a < b {
      MulMonotone(a + 1, b, d);
    } else if b < a {
      MulMonotone(b + 1, a, d);
      MulDistributes(b, 1, d);
    }
  }

  lemma {:induction false} PeriodsCount(p: Program, freq: Rat, period: nat, deadlines: seq<Deadline>, g: Rat,
                                        gaps: seq<nat>, k: nat)
    requires OneFrequency.RunsAt(p, freq) && Positive(freq) && KeepsTime(p, deadlines, g, gaps)
    requires period * freq.num == 1_000_000_000 * freq.den
    ensures DeadlineTime(deadlines, k) == k * period
  {
    if k > 0 {
      PeriodsCount(p, freq, period, deadlines, g, gaps, k - 1);
      EveryBeat(p, freq, deadlines, g, gaps, k - 1);
      EveryBeat(p, freq, deadlines, g, gaps, k);
      assert Timely(deadlines, g, gaps, k);
      WholePause(g, freq, period, deadlines, gaps, k);
      assert k * period == (k - 1) * period + period;
    }
  }

  /**
   At one frequency whose period is a whole number of nanoseconds, every deadline `k` is at exactly `k`
   periods.
   */
  lemma WholePeriods(p: Program, freq: Rat, period: nat, table: map<nat, nat>, deadlines: seq<Deadline>, k: nat)
    requires Checked(p) && IsScheduleOf(p, table, deadlines)
    requires OneFrequency.RunsAt(p, freq) && period * freq.num == 1_000_000_000 * freq.den
    ensures deadlines != [] && DeadlineTime(deadlines, k) == k * period && NoDuplicates(DueAt(deadlines, k))
    ensures forall o: nat :: o in DueAt(deadlines, k) <==> Periodic(p, o)
  {
    var o: nat :| o < |p.outputs| && p.outputs[o].clock.RealTime?;
    assert Periodic(p, o);
    assert ClockInferred(p.outputs[o].clock);
    var g, gaps := ReplayKeepsTime(p, table, deadlines);
    PeriodsCount(p, freq, period, deadlines, g, gaps, k);
    EveryBeat(p, freq, deadlines, g, gaps, k);
    assert DueOnBeat(p, deadlines, g, gaps, k);
  }
}
