/**
 The infinite replay of a cycle of deadlines: what is due at every deadline, and how far the truncated
 pauses lag behind the exact time.
 */
module Replays {
  import opened Numbers
  import opened Rationals
  import opened Clocks
  import opened Schedules
  import opened ScheduleCycles
  import opened ZeroPauses
  import opened Controller

  /** The number of steps until deadline `k` of the replay. */
  function StepAt(gaps: seq<nat>, k: nat): nat
    requires gaps != []
  {
    if k == 0 then 0 else StepAt(gaps, k - 1) + gaps[(k - 1) % |gaps|]
  }

  /** Deadline `k` is deadline `k % |gaps|` of its cycle. */
  lemma {:induction false} StepInCycle(gaps: seq<nat>, k: nat)
    requires gaps != []
    ensures StepAt(gaps, k) == (k / |gaps|) * Elapsed(gaps, |gaps|) + Elapsed(gaps, k % |gaps|)
  {
    if k > 0 {
      StepInCycle(gaps, k - 1);
      NextInCycle(gaps, k - 1);
    }
  }

  lemma NextInCycle(gaps: seq<nat>, k: nat)
    requires gaps != []
    ensures (k / |gaps|) * Elapsed(gaps, |gaps|) + Elapsed(gaps, k % |gaps| + 1)
            == ((k + 1) / |gaps|) * Elapsed(gaps, |gaps|) + Elapsed(gaps, (k + 1) % |gaps|)
  {
    var l, n := |gaps|, Elapsed(gaps, |gaps|);
    NextQuotient(k, l);
    if k % l == l - 1 {
      MulDistributes(k / l, 1, n);
    }
  }

  lemma NextQuotient(k: nat, l: nat)
    requires l > 0
    ensures if k % l == l - 1 then (k + 1) / l == k / l + 1 && (k + 1) % l == 0
            else (k + 1) / l == k / l && (k + 1) % l == k % l + 1
  {
    var q, r := k / l, k % l;
    assert k == q * l + r;
    if r == l - 1 {
      MulDistributes(q, 1, l);
      QuotientUnique(q + 1, 0, l);
    } else {
      QuotientUnique(q, r + 1, l);
    }
  }

  /** The deadline of the cycle that is replayed as deadline `k`. */
  function InCycle(n: nat, k: nat): nat
    requires n > 0
  {
    if k == 0 then n - 1 else (k - 1) % n
  }

  lemma DueOfDeadline(deadlines: seq<Deadline>, k: nat)
    requires deadlines != []
    ensures DueAt(deadlines, k) == deadlines[InCycle(|deadlines|, k)].due
  {
  }

  /** A period measures the exact time of deadline `k` exactly if it measures that of its deadline in the cycle. */
  lemma MeasuredInCycle(streams: seq<TimeDriven>, g: Rat, n: nat, gaps: seq<nat>, i: nat, k: nat)
    requires Positive(g) && gaps != [] && n == Elapsed(gaps, |gaps|) && i < |streams| && Positive(streams[i].period)
    requires PeriodFits(streams[i].period, g, n)
    ensures Measures(streams[i].period, StepTime(g, StepAt(gaps, k)))
            <==> Measures(streams[i].period, StepTime(g, Elapsed(gaps, InCycle(|gaps|, k) + 1)))
  {
    if k == 0 {
      CycleRepeats(streams, g, n, 1, 0, i);
      assert 1 * n + 0 == n;
    } else {
      StepInCycle(gaps, k - 1);
      CycleRepeats(streams, g, n, (k - 1) / |gaps|, Elapsed(gaps, InCycle(|gaps|, k) + 1), i);
    }
  }

  lemma CycleParts(streams: seq<TimeDriven>, g: Rat, n: nat, layer: nat -> nat, deadlines: seq<Deadline>,
                   gaps: seq<nat>, i: nat)
    requires Cycle(streams, g, n, layer, deadlines, gaps) && i < |streams|
    ensures Positive(g) && Positive(streams[i].period) && PeriodFits(streams[i].period, g, n) && n > 0
    ensures |deadlines| == |gaps| && n == Elapsed(gaps, |gaps|) && gaps != []
  {
  }

  /**
   What is due at deadline `k` of the replay: exactly the streams whose period measures its exact time.
   At the start these are all streams.
   */
  lemma DueExactly(streams: seq<TimeDriven>, g: Rat, n: nat, layer: nat -> nat, deadlines: seq<Deadline>,
                   gaps: seq<nat>, i: nat, k: nat)
    requires Cycle(streams, g, n, layer, deadlines, gaps) && i < |streams|
    ensures gaps != [] && |deadlines| == |gaps|
    ensures streams[i].reference in DueAt(deadlines, k)
            <==> Measures(streams[i].period, StepTime(g, StepAt(gaps, k)))
  {
    CycleParts(streams, g, n, layer, deadlines, gaps, i);
    MeasuredInCycle(streams, g, n, gaps, i, k);
    DueOfDeadline(deadlines, k);
    var m := InCycle(|gaps|, k);
    DueInDeadline(streams, g, layer, deadlines[m], gaps[m], Elapsed(gaps, m + 1), i);
  }

  lemma DueInDeadline(streams: seq<TimeDriven>, g: Rat, layer: nat -> nat, deadline: Deadline, gap: nat, step: nat,
                      i: nat)
    requires g.den > 0 && DeadlineExact(streams, g, layer, deadline, gap, step) && i < |streams|
    ensures streams[i].reference in deadline.due <==> Measures(streams[i].period, StepTime(g, step))
  {
    assert streams[i].reference in deadline.due <==> multiset(deadline.due)[streams[i].reference] > 0;
  }

  /** The deadline of the cycle at a step where some stream is due, counting from one; zero is the start. */
  lemma DeadlineOfStep(streams: seq<TimeDriven>, g: Rat, n: nat, layer: nat -> nat, deadlines: seq<Deadline>,
                       gaps: seq<nat>, i: nat, r: nat)
    returns (m: nat)
    requires Cycle(streams, g, n, layer, deadlines, gaps) && i < |streams| && r < n
    requires Measures(streams[i].period, StepTime(g, r))
    ensures m < |gaps| && Elapsed(gaps, m) == r
  {
    m := 0;
    CycleParts(streams, g, n, layer, deadlines, gaps, i);
    if r > 0 {
      assert HasDeadline(gaps, r);
      m :| 1 <= m <= |gaps| && Elapsed(gaps, m) == r;
    }
  }

  lemma StepOfCycle(gaps: seq<nat>, q: nat, m: nat, j: nat) returns (k: nat)
    requires m < |gaps| && j == q * Elapsed(gaps, |gaps|) + Elapsed(gaps, m)
    ensures StepAt(gaps, k) == j
  {
    k := q * |gaps| + m;
    QuotientUnique(q, m, |gaps|);
    StepInCycle(gaps, k);
  }

  lemma DivMod(j: nat, n: nat) returns (q: nat, r: nat)
    requires n > 0
    ensures j == q * n + r && r < n
  {
    q, r := j / n, j % n;
  }

  /** The deadline of the replay at a step where some stream is due. */
  lemma DeadlineAtStep(streams: seq<TimeDriven>, g: Rat, n: nat, layer: nat -> nat, deadlines: seq<Deadline>,
                       gaps: seq<nat>, i: nat, q: nat, r: nat, j: nat)
    returns (k: nat)
    requires Cycle(streams, g, n, layer, deadlines, gaps) && i < |streams| && r < n && j == q * n + r
    requires Measures(streams[i].period, StepTime(g, r))
    ensures gaps != [] && StepAt(gaps, k) == j
  {
    CycleParts(streams, g, n, layer, deadlines, gaps, i);
    var m := DeadlineOfStep(streams, g, n, layer, deadlines, gaps, i, r);
    k := StepOfCycle(gaps, q, m, j);
  }

  lemma MeasuredRest(streams: seq<TimeDriven>, g: Rat, n: nat, layer: nat -> nat, deadlines: seq<Deadline>,
                     gaps: seq<nat>, i: nat, q: nat, r: nat, j: nat)
    requires Cycle(streams, g, n, layer, deadlines, gaps) && i < |streams| && j == q * n + r
    requires Measures(streams[i].period, StepTime(g, j))
    ensures Measures(streams[i].period, StepTime(g, r))
  {
    CycleParts(streams, g, n, layer, deadlines, gaps, i);
    RestMeasured(streams, g, n, i, q, r, j);
  }

  lemma RestMeasured(streams: seq<TimeDriven>, g: Rat, n: nat, i: nat, q: nat, r: nat, j: nat)
    requires i < |streams| && Positive(g) && Positive(streams[i].period) && Measures(g, streams[i].period)
    requires Divides(StepsOf(g, streams[i].period), n) && j == q * n + r
    ensures Measures(streams[i].period, StepTime(g, j)) <==> Measures(streams[i].period, StepTime(g, r))
  {
    CycleRepeats(streams, g, n, q, r, i);
  }

  /** Every multiple of a period has its deadline in the replay. */
  lemma EveryMultipleHasDeadline(streams: seq<TimeDriven>, g: Rat, n: nat, layer: nat -> nat,
                                 deadlines: seq<Deadline>, gaps: seq<nat>, i: nat, j: nat)
    returns (k: nat)
    requires Cycle(streams, g, n, layer, deadlines, gaps) && i < |streams|
    requires Measures(streams[i].period, StepTime(g, j))
    ensures gaps != [] && |deadlines| == |gaps|
    ensures StepAt(gaps, k) == j && streams[i].reference in DueAt(deadlines, k)
  {
    var q, r := DivMod(j, n);
    MeasuredRest(streams, g, n, layer, deadlines, gaps, i, q, r, j);
    k := DeadlineAtStep(streams, g, n, layer, deadlines, gaps, i, q, r, j);
    DueExactly(streams, g, n, layer, deadlines, gaps, i, k);
  }

  /**
   Deadline `k` of the replay is never early, and late by less than `k` nanoseconds; it is at its exact
   time if the gcd of the periods is a whole number of nanoseconds.
   */
  lemma {:induction false} ReplayLag(g: Rat, deadlines: seq<Deadline>, gaps: seq<nat>, k: nat)
    requires g.den > 0 && gaps != [] && |deadlines| == |gaps|
    requires forall m | 0 <= m < |gaps| :: deadlines[m].pause == Pause(g, gaps[m])
    ensures DeadlineTime(deadlines, k) * g.den <= g.num * StepAt(gaps, k)
    ensures k >= 1 ==> g.num * StepAt(gaps, k) < (DeadlineTime(deadlines, k) + k) * g.den
    ensures g.den == 1 || k == 0 ==> DeadlineTime(deadlines, k) * g.den == g.num * StepAt(gaps, k)
  {
    if k > 0 {
      var m := (k - 1) % |gaps|;
      ReplayLag(g, deadlines, gaps, k - 1);
      PauseRounding(g, gaps[m]);
      DriftStep(g, DeadlineTime(deadlines, k - 1), Pause(g, gaps[m]), StepAt(gaps, k - 1), gaps[m], k - 1);
    }
  }
}
