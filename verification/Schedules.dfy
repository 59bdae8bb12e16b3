/**
 The periodic schedule: a sieve over gcd-sized steps, condensed into deadlines with pauses.
 All times are rational numbers of nanoseconds until the pauses are truncated.
 */
module Schedules {
  import opened Numbers
  import opened Values
  import opened Rationals
  import opened Clocks

  datatype TimeDriven = TimeDriven(reference: nat, period: Rat)

  datatype Deadline = Deadline(pause: nat, due: seq<nat>)

  const MAX_STEPS: nat := 10_000_000

  ghost predicate AllPositive(streams: seq<TimeDriven>) {
    forall i | 0 <= i < |streams| :: Positive(streams[i].period)
  }

  /** How many gcd-sized steps a period takes, once the quotient is known to be an integer. */
  function StepsOf(g: Rat, period: Rat): (k: nat)
    requires Positive(g) && Positive(period)
    ensures k > 0
  {
    ProductPositive(period.num, g.den);
    ProductPositive(period.den, g.num);
    NewRatReduced(period.num * g.den, period.den * g.num);
    Quotient(period, g).num
  }

  /** `j` steps of the gcd, as a time. */
  function StepTime(g: Rat, j: nat): Rat {
    Rat(g.num * j, g.den)
  }

  // ---------- periods in steps ----------

  lemma MultipleTransitive(a: Rat, b: Rat, c: Rat, k: nat, l: nat)
    requires Positive(b) && IsMultiple(a, b, k) && IsMultiple(b, c, l)
    ensures IsMultiple(a, c, k * l)
  {
    // a.num * b.den == k * b.num * a.den and b.num * c.den == l * c.num * b.den
    assert (a.num * c.den) * b.den == ((k * l) * c.num * a.den) * b.den by {
      assert (a.num * c.den) * b.den == (a.num * b.den) * c.den;
      assert (k * b.num * a.den) * c.den == (k * a.den) * (b.num * c.den);
      assert (k * a.den) * (l * c.num * b.den) == ((k * l) * c.num * a.den) * b.den;
    }
    MulCancel(a.num * c.den, (k * l) * c.num * a.den, b.den);
  }

  lemma StepsOfMeasured(g: Rat, period: Rat)
    requires Positive(g) && Positive(period) && Measures(g, period)
    ensures Quotient(period, g).den == 1 && IsMultiple(period, g, StepsOf(g, period))
  {
    QuotientInteger(period, g);
  }

  /** A period divides `j` steps exactly if its own number of steps divides `j`. */
  lemma DueIffDivides(g: Rat, period: Rat, j: nat)
    requires Positive(g) && Positive(period) && Measures(g, period)
    ensures Measures(period, StepTime(g, j)) <==> Divides(StepsOf(g, period), j)
  {
    StepsOfMeasured(g, period);
    var s, t := StepsOf(g, period), StepTime(g, j);
    assert IsMultiple(t, g, j);
    if k: nat :| IsMultiple(t, period, k) {
      MultipleTransitive(t, period, g, k, s);
      SameMultiple(t, g, j, k * s);
      DividesIntro(s, j, k);
    }
    if Divides(s, j) {
      DividesElim(s, j);
      MultipleOfMultiple(t, period, g, j / s, s);
    }
  }

  lemma SameMultiple(t: Rat, g: Rat, j: nat, k: nat)
    requires t.den > 0 && g.num > 0 && IsMultiple(t, g, j) && IsMultiple(t, g, k)
    ensures j == k
  {
    ProductPositive(g.num, t.den);
    assert j * g.num * t.den == j * (g.num * t.den) && k * g.num * t.den == k * (g.num * t.den);
    MulCancel(j, k, g.num * t.den);
  }

  lemma MultipleOfMultiple(t: Rat, period: Rat, g: Rat, k: nat, s: nat)
    requires Positive(g) && IsMultiple(t, g, k * s) && IsMultiple(period, g, s)
    ensures IsMultiple(t, period, k)
  {
    // t.num * g.den == k * s * g.num * t.den and period.num * g.den == s * g.num * period.den
    assert (t.num * period.den) * g.den == (k * period.num * t.den) * g.den by {
      assert (t.num * period.den) * g.den == (t.num * g.den) * period.den;
      assert (k * s * g.num * t.den) * period.den == (k * t.den) * (s * g.num * period.den);
      assert (k * t.den) * (period.num * g.den) == (k * period.num * t.den) * g.den;
    }
    MulCancel(t.num * period.den, k * period.num * t.den, g.den);
  }

  // ---------- initial steps ----------

  /** The streams whose period takes `n` steps, in the order of their declaration. */
  function StartingAt(streams: seq<TimeDriven>, g: Rat, n: nat): seq<nat>
    requires AllPositive(streams) && Positive(g)
  {
    if streams == [] then [] else
    var last := |streams| - 1;
    assert AllPositive(streams[..last]);
    StartingAt(streams[..last], g, n)
        + (if StepsOf(g, streams[last].period) == n then [streams[last].reference] else [])
  }

  /** The assertions and bounds checks met while building the steps. */
  ghost predicate StepsBuildable(streams: seq<TimeDriven>, g: Rat, hyper: Rat)
    requires AllPositive(streams) && Positive(g) && Positive(hyper)
  {
    && Quotient(hyper, g).den == 1
    && (Quotient(hyper, g).num < MAX_STEPS ==>
          forall i | 0 <= i < |streams| ::
            Quotient(streams[i].period, g).den == 1 && StepsOf(g, streams[i].period) <= Quotient(hyper, g).num)
  }

  /** One cell per step of the hyper period; `Nothing` reports frequencies that are too incompatible. */
  method BuildExtendSteps(streams: seq<TimeDriven>, g: Rat, hyper: Rat) returns (r: Outcome<Option<seq<seq<nat>>>>)
    requires AllPositive(streams) && Positive(g) && Positive(hyper)
    ensures r.Ok? <==> StepsBuildable(streams, g, hyper)
    ensures r.Ok? ==> (r.value.Nothing? <==> Quotient(hyper, g).num >= 10_000_000)
    ensures r.Ok? && r.value.Just? ==>
              && |r.value.value| == Quotient(hyper, g).num
              && forall j | 0 <= j < |r.value.value| :: r.value.value[j] == StartingAt(streams, g, j + 1)
  {
    var numSteps := Quotient(hyper, g);
    if numSteps.den != 1 {
      return Panic;
    }
    if numSteps.num >= MAX_STEPS {
      return Ok(Nothing);
    }
    var steps: seq<seq<nat>> := seq(numSteps.num, _ => []);
    for i := 0 to |streams|
      invariant |steps| == numSteps.num
      invariant AllPositive(streams[..i])
      invariant forall j | 0 <= j < i ::
                  Quotient(streams[j].period, g).den == 1 && StepsOf(g, streams[j].period) <= numSteps.num
      invariant forall j | 0 <= j < |steps| :: steps[j] == StartingAt(streams[..i], g, j + 1)
    {
      var ix := StepsOf(g, streams[i].period);
      if Quotient(streams[i].period, g).den != 1 || ix > |steps| {
        return Panic;
      }
      steps := steps[ix - 1 := steps[ix - 1] + [streams[i].reference]];
      assert streams[..i + 1][..i] == streams[..i];
    }
    assert streams[..|streams|] == streams;
    return Ok(Just(steps));
  }

  // ---------- the sieve ----------

  /** What is due in step `j` if only periods of at most `n` steps are considered. */
  function DueBy(steps: seq<seq<nat>>, n: nat, j: nat): seq<nat>
    requires n <= |steps|
  {
    if n == 0 then [] else DueBy(steps, n - 1, j) + (if (j + 1) % n == 0 then steps[n - 1] else [])
  }

  lemma NextMultiple(n: nat, k: nat, m: nat)
    requires n > 0 && k > 0
    ensures m < (k + 1) * n && m % n == 0 && m >= k * n <==> m == k * n
  {
    QuotientUnique(k, 0, n);
    MulDistributes(k, 1, n);
    if k * n <= m < (k + 1) * n {
      QuotientUnique(k, m - k * n, n);
    }
  }

  /** What the copies of cell `ix` up to position `target` have added to step `j`. */
  function CopiedBefore(steps: seq<seq<nat>>, ix: nat, target: nat, j: nat): seq<nat>
    requires ix < |steps|
  {
    if (j + 1) % (ix + 1) == 0 && j < target then steps[ix] else []
  }

  lemma NextCopy(steps: seq<seq<nat>>, ix: nat, k: nat, target: nat, j: nat)
    requires ix < |steps| && k >= 1 && target == k * (ix + 1) - 1
    ensures target + ix + 1 == (k + 1) * (ix + 1) - 1
    ensures CopiedBefore(steps, ix, target + ix + 1, j) == if j == target then steps[ix]
            else CopiedBefore(steps, ix, target, j)
    ensures CopiedBefore(steps, ix, target, target) == []
  {
    MulDistributes(k, 1, ix + 1);
    NextMultiple(ix + 1, k, j + 1);
    NextMultiple(ix + 1, k, target + 1);
  }

  /** Copies one cell to every multiple of its position. */
  method CopyToMultiples(steps: seq<seq<nat>>, ix: nat, before: seq<seq<nat>>) returns (res: seq<seq<nat>>)
    requires ix < |steps| == |before|
    ensures |res| == |steps|
    ensures forall j | 0 <= j < |res| :: res[j] == before[j] + if (j + 1) % (ix + 1) == 0 then steps[ix] else []
  {
    res := before;
    var k := 1;
    var target := ix;
    while target < |res|
      invariant k >= 1 && target == k * (ix + 1) - 1 && |res| == |steps|
      invariant forall j | 0 <= j < |res| :: res[j] == before[j] + CopiedBefore(steps, ix, target, j)
      decreases |res| - target
    {
      forall j | 0 <= j < |res|
        ensures CopiedBefore(steps, ix, target + ix + 1, j) == if j == target then steps[ix]
                else CopiedBefore(steps, ix, target, j)
      {
        NextCopy(steps, ix, k, target, j);
      }
      NextCopy(steps, ix, k, target, target);
      res := res[target := res[target] + steps[ix]];
      k := k + 1;
      target := target + ix + 1;
    }
  }

  /** Copies the streams of each cell to every multiple of its position. */
  method ApplyPeriodicity(steps: seq<seq<nat>>) returns (res: seq<seq<nat>>)
    ensures |res| == |steps|
    ensures forall j | 0 <= j < |res| :: res[j] == DueBy(steps, |steps|, j)
  {
    res := seq(|steps|, _ => []);
    for ix := 0 to |steps|
      invariant |res| == |steps|
      invariant forall j | 0 <= j < |res| :: res[j] == DueBy(steps, ix, j)
    {
      if steps[ix] != [] {
        res := CopyToMultiples(steps, ix, res);
      }
    }
  }

  ghost predicate DistinctReferences(streams: seq<TimeDriven>) {
    forall i, j | 0 <= i < j < |streams| :: streams[i].reference != streams[j].reference
  }

  lemma StartsSnoc(streams: seq<TimeDriven>, g: Rat, n: nat, x: nat)
    requires AllPositive(streams) && Positive(g) && streams != []
    ensures AllPositive(streams[..|streams| - 1])
    ensures multiset(StartingAt(streams, g, n))[x] == multiset(StartingAt(streams[..|streams| - 1], g, n))[x]
            + if StepsOf(g, streams[|streams| - 1].period) == n && streams[|streams| - 1].reference == x then 1 else 0
  {
  }

  lemma {:induction false} NeverStarts(streams: seq<TimeDriven>, g: Rat, n: nat, x: nat)
    requires AllPositive(streams) && Positive(g) && forall i | 0 <= i < |streams| :: streams[i].reference != x
    ensures multiset(StartingAt(streams, g, n))[x] == 0
  {
    if streams != [] {
      StartsSnoc(streams, g, n, x);
      NeverStarts(streams[..|streams| - 1], g, n, x);
    }
  }

  /** A stream is in the cell of its number of steps once, and in no other. */
  lemma {:induction false} StartsOnce(streams: seq<TimeDriven>, g: Rat, n: nat, i: nat)
    requires AllPositive(streams) && Positive(g) && DistinctReferences(streams) && i < |streams|
    ensures multiset(StartingAt(streams, g, n))[streams[i].reference] == if StepsOf(g, streams[i].period) == n then 1
            else 0
  {
    var last, x := |streams| - 1, streams[i].reference;
    StartsSnoc(streams, g, n, x);
    if i == last {
      NeverStarts(streams[..last], g, n, x);
    } else {
      StartsOnce(streams[..last], g, n, i);
    }
  }

  ghost predicate StartCells(streams: seq<TimeDriven>, g: Rat, steps: seq<seq<nat>>)
    requires AllPositive(streams) && Positive(g)
  {
    forall j | 0 <= j < |steps| :: steps[j] == StartingAt(streams, g, j + 1)
  }

  lemma CellOnce(streams: seq<TimeDriven>, g: Rat, steps: seq<seq<nat>>, n: nat, i: nat)
    requires AllPositive(streams) && Positive(g) && DistinctReferences(streams)
    requires 0 < n <= |steps| && StartCells(streams, g, steps) && i < |streams|
    ensures multiset(steps[n - 1])[streams[i].reference] == if StepsOf(g, streams[i].period) == n then 1 else 0
  {
    StartsOnce(streams, g, n, i);
    assert steps[n - 1] == StartingAt(streams, g, n);
  }

  lemma NeverInCell(streams: seq<TimeDriven>, g: Rat, steps: seq<seq<nat>>, n: nat, x: nat)
    requires AllPositive(streams) && Positive(g) && 0 < n <= |steps| && StartCells(streams, g, steps)
    requires forall i | 0 <= i < |streams| :: streams[i].reference != x
    ensures multiset(steps[n - 1])[x] == 0
  {
    NeverStarts(streams, g, n, x);
    assert steps[n - 1] == StartingAt(streams, g, n);
  }

  lemma CountDue(steps: seq<seq<nat>>, n: nat, j: nat, x: nat)
    requires 0 < n <= |steps|
    ensures multiset(DueBy(steps, n, j))[x]
            == multiset(DueBy(steps, n - 1, j))[x] + if (j + 1) % n == 0 then multiset(steps[n - 1])[x] else 0
  {
  }

  /** A stream is due in a step exactly once if its number of steps divides the position, and otherwise not at all. */
  lemma {:induction false} DueOnce(streams: seq<TimeDriven>, g: Rat, steps: seq<seq<nat>>, n: nat, j: nat, i: nat)
    requires AllPositive(streams) && Positive(g) && DistinctReferences(streams)
    requires n <= |steps| && StartCells(streams, g, steps) && i < |streams|
    ensures multiset(DueBy(steps, n, j))[streams[i].reference]
            == if StepsOf(g, streams[i].period) <= n && (j + 1) % StepsOf(g, streams[i].period) == 0 then 1 else 0
  {
    if n > 0 {
      DueOnce(streams, g, steps, n - 1, j, i);
      CellOnce(streams, g, steps, n, i);
      CountDue(steps, n, j, streams[i].reference);
    }
  }

  lemma {:induction false} OnlyStreamsDue(streams: seq<TimeDriven>, g: Rat, steps: seq<seq<nat>>, n: nat, j: nat,
                                          x: nat)
    requires AllPositive(streams) && Positive(g) && DistinctReferences(streams)
    requires n <= |steps| && StartCells(streams, g, steps)
    requires forall i | 0 <= i < |streams| :: streams[i].reference != x
    ensures multiset(DueBy(steps, n, j))[x] == 0
  {
    if n > 0 {
      OnlyStreamsDue(streams, g, steps, n - 1, j, x);
      NeverInCell(streams, g, steps, n, x);
      CountDue(steps, n, j, x);
    }
  }

  // ---------- condensation ----------

  /** The pause of `k` steps, truncated to whole nanoseconds. */
  function Pause(g: Rat, k: nat): nat
    requires g.den > 0
  {
    (g.num * k) / g.den
  }

  /** How many of the last of the first `n` steps are empty. */
  function EmptyRun(steps: seq<seq<nat>>, n: nat): nat
    requires n <= |steps|
  {
    if n == 0 || steps[n - 1] != [] then 0 else EmptyRun(steps, n - 1) + 1
  }

  /** The distances between consecutive non-empty steps among the first `n`. */
  function Gaps(steps: seq<seq<nat>>, n: nat): seq<nat>
    requires n <= |steps|
  {
    if n == 0 then []
    else if steps[n - 1] == [] then Gaps(steps, n - 1)
    else Gaps(steps, n - 1) + [EmptyRun(steps, n - 1) + 1]
  }

  /** The non-empty steps among the first `n`. */
  function NonEmpty(steps: seq<seq<nat>>, n: nat): seq<seq<nat>>
    requires n <= |steps|
  {
    if n == 0 then []
    else if steps[n - 1] == [] then NonEmpty(steps, n - 1)
    else NonEmpty(steps, n - 1) + [steps[n - 1]]
  }

  lemma {:induction false} OneGapEach(steps: seq<seq<nat>>, n: nat)
    requires n <= |steps|
    ensures |Gaps(steps, n)| == |NonEmpty(steps, n)|
  {
    if n > 0 {
      OneGapEach(steps, n - 1);
    }
  }

  function Elapsed(gaps: seq<nat>, m: nat): nat
    requires m <= |gaps|
  {
    if m == 0 then 0 else Elapsed(gaps, m - 1) + gaps[m - 1]
  }

  lemma {:induction false} ElapsedPrefix(gaps: seq<nat>, more: seq<nat>, m: nat)
    requires m <= |gaps|
    ensures Elapsed(gaps + more, m) == Elapsed(gaps, m)
  {
    if m > 0 {
      ElapsedPrefix(gaps, more, m - 1);
    }
  }

  /** The gaps and the trailing empty steps add up to the number of steps. */
  lemma {:induction false} GapsCover(steps: seq<seq<nat>>, n: nat)
    requires n <= |steps|
    ensures Elapsed(Gaps(steps, n), |Gaps(steps, n)|) + EmptyRun(steps, n) == n
  {
    if n > 0 {
      GapsCover(steps, n - 1);
      var before := Gaps(steps, n - 1);
      if steps[n - 1] != [] {
        ElapsedPrefix(before, [EmptyRun(steps, n - 1) + 1], |before|);
      }
    }
  }

  /** Deadline `m` stands for the step reached after its gaps, and that step is not empty. */
  lemma {:induction false} GapReaches(steps: seq<seq<nat>>, n: nat, m: nat)
    requires n <= |steps| && m < |Gaps(steps, n)|
    ensures m < |NonEmpty(steps, n)|
    ensures 1 <= Elapsed(Gaps(steps, n), m + 1) <= n
    ensures NonEmpty(steps, n)[m] == steps[Elapsed(Gaps(steps, n), m + 1) - 1] != []
  {
    OneGapEach(steps, n);
    if steps[n - 1] == [] {
      GapReaches(steps, n - 1, m);
    } else {
      var before := Gaps(steps, n - 1);
      var gap := EmptyRun(steps, n - 1) + 1;
      OneGapEach(steps, n - 1);
      if m < |before| {
        GapReaches(steps, n - 1, m);
        ElapsedPrefix(before, [gap], m + 1);
      } else {
        GapsCover(steps, n);
      }
    }
  }

  /** Every non-empty step is reached by some deadline. */
  lemma {:induction false} StepReached(steps: seq<seq<nat>>, n: nat, j: nat) returns (m: nat)
    requires j < n <= |steps| && steps[j] != []
    ensures m < |Gaps(steps, n)| && Elapsed(Gaps(steps, n), m + 1) == j + 1
  {
    var before := Gaps(steps, n - 1);
    if j == n - 1 {
      m := |before|;
      GapsCover(steps, n);
    } else {
      m := StepReached(steps, n - 1, j);
      if steps[n - 1] != [] {
        ElapsedPrefix(before, [EmptyRun(steps, n - 1) + 1], m + 1);
      }
    }
  }

  /** Turns non-empty steps into deadlines; steps left over at the end fail an assertion. */
  method CondenseDeadlines(g: Rat, steps: seq<seq<nat>>) returns (r: Outcome<seq<Deadline>>)
    requires g.den > 0
    ensures r.Ok? <==> EmptyRun(steps, |steps|) == 0
    ensures r.Ok? ==> |r.value| == |Gaps(steps, |steps|)| == |NonEmpty(steps, |steps|)|
    ensures r.Ok? ==> forall m | 0 <= m < |r.value| ::
              r.value[m] == Deadline(Pause(g, Gaps(steps, |steps|)[m]), NonEmpty(steps, |steps|)[m])
  {
    var emptyCounter: nat := 0;
    var deadlines: seq<Deadline> := [];
    for i := 0 to |steps|
      invariant emptyCounter == EmptyRun(steps, i)
      invariant |deadlines| == |Gaps(steps, i)| == |NonEmpty(steps, i)|
      invariant forall m | 0 <= m < |deadlines| ::
        deadlines[m] == Deadline(Pause(g, Gaps(steps, i)[m]), NonEmpty(steps, i)[m])
    {
      if steps[i] == [] {
        emptyCounter := emptyCounter + 1;
      } else {
        deadlines := deadlines + [Deadline(Pause(g, emptyCounter + 1), steps[i])];
        emptyCounter := 0;
      }
    }
    if emptyCounter != 0 {
      return Panic;
    }
    return Ok(deadlines);
  }

  // ---------- sorting by evaluation layer ----------

  ghost predicate SortedByLayer(s: seq<nat>, layer: nat -> nat) {
    forall i, j | 0 <= i < j < |s| :: layer(s[i]) <= layer(s[j])
  }

  /** Stable insertion: behind every element of the same or an earlier layer. */
  function InsertByLayer(s: seq<nat>, x: nat, layer: nat -> nat): seq<nat> {
    if s == [] || layer(s[|s| - 1]) <= layer(x) then s + [x]
    else InsertByLayer(s[..|s| - 1], x, layer) + [s[|s| - 1]]
  }

  function SortByLayer(s: seq<nat>, layer: nat -> nat): seq<nat> {
    if s == [] then [] else InsertByLayer(SortByLayer(s[..|s| - 1], layer), s[|s| - 1], layer)
  }

  lemma {:induction false} InsertKeepsElements(s: seq<nat>, x: nat, layer: nat -> nat)
    ensures multiset(InsertByLayer(s, x, layer)) == multiset(s) + multiset{x}
  {
    if s != [] && layer(s[|s| - 1]) > layer(x) {
      InsertKeepsElements(s[..|s| - 1], x, layer);
      assert s == s[..|s| - 1] + [s[|s| - 1]];
    }
  }

  lemma {:induction false} InsertSorted(s: seq<nat>, x: nat, layer: nat -> nat)
    requires SortedByLayer(s, layer)
    ensures SortedByLayer(InsertByLayer(s, x, layer), layer)
  {
    if s != [] && layer(s[|s| - 1]) > layer(x) {
      var init, last := s[..|s| - 1], s[|s| - 1];
      var rest := InsertByLayer(init, x, layer);
      InsertSorted(init, x, layer);
      InsertKeepsElements(init, x, layer);
      forall i | 0 <= i < |rest| ensures layer(rest[i]) <= layer(last) {
        assert rest[i] in multiset(rest);
        if rest[i] != x {
          assert rest[i] in multiset(init);
          var j :| 0 <= j < |init| && init[j] == rest[i];
          assert s[j] == init[j];
        }
      }
    }
  }

  /** Sorting the due streams of a deadline permutes them into layer order. */
  lemma {:induction false} SortByLayerSorts(s: seq<nat>, layer: nat -> nat)
    ensures SortedByLayer(SortByLayer(s, layer), layer)
    ensures multiset(SortByLayer(s, layer)) == multiset(s)
  {
    if s != [] {
      var init, last := s[..|s| - 1], s[|s| - 1];
      var sorted := SortByLayer(init, layer);
      SortByLayerSorts(init, layer);
      InsertSorted(sorted, last, layer);
      InsertKeepsElements(sorted, last, layer);
      assert s == init + [last];
      assert multiset(s) == multiset(init) + multiset{last};
    }
  }
}
