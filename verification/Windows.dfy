/**
 Sliding windows: 64 rotating buckets of partial aggregates, proved equal to a fold over the
 accepted history.
 */
module Windows {
  import opened Numbers
  import opened Values

  const SIZE: nat := 64

  /**
   An aggregation: the value of an empty bucket, how summaries combine, and what they report.
   A summary that holds a failed assertion or a type error reports a panic.
   */
  datatype Summary<!IV> = Summary(
    neutral: Time -> IV,
    add: (IV, IV) -> IV,
    lift: Sample -> IV,
    result: IV -> Outcome<Value>)

  /** Combining is associative, and an empty bucket on the right changes nothing. */
  ghost predicate Lawful<IV(!new)>(s: Summary<IV>) {
    && (forall a, b, c :: s.add(s.add(a, b), c) == s.add(a, s.add(b, c)))
    && (forall a, t :: s.add(a, s.neutral(t)) == a)
  }

  /** The samples folded oldest first into an accumulator. */
  function Fold<IV>(s: Summary<IV>, acc: IV, xs: seq<Sample>): IV {
    if xs == [] then acc else s.add(Fold(s, acc, xs[..|xs| - 1]), s.lift(xs[|xs| - 1]))
  }

  /** Adding a bucket is folding the samples the bucket has accepted. */
  lemma {:induction false} AddBucket<IV(!new)>(s: Summary<IV>, acc: IV, t: Time, xs: seq<Sample>)
    requires Lawful(s)
    ensures s.add(acc, Fold(s, s.neutral(t), xs)) == Fold(s, acc, xs)
  {
    if xs != [] {
      AddBucket(s, acc, t, xs[..|xs| - 1]);
    }
  }

  lemma {:induction false} FoldConcat<IV>(s: Summary<IV>, acc: IV, xs: seq<Sample>, ys: seq<Sample>)
    ensures Fold(s, acc, xs + ys) == Fold(s, Fold(s, acc, xs), ys)
  {
    if ys == [] {
      assert xs + ys == xs;
    } else {
      assert (xs + ys)[..|xs + ys| - 1] == xs + ys[..|ys| - 1];
      FoldConcat(s, acc, xs, ys[..|ys| - 1]);
    }
  }

  // ---------- bucket numbers ----------

  /** A bucket index: how often the buckets have been filled, and the position within this round. */
  datatype BIx = BIx(period: nat, ix: nat) {
    function BucketsSince(other: BIx, numBuckets: nat): Outcome<nat> {
      if period < other.period then Panic
      else if period > other.period then
        var periodDiff := period - other.period;
        if ix == other.ix then Ok(periodDiff * numBuckets)
        else if ix < other.ix then
          var actual := (periodDiff - 1) * numBuckets + numBuckets - other.ix + ix;
          if actual < 0 then Panic else Ok(actual)
        else Ok(periodDiff * numBuckets + (ix - other.ix))
      else if ix < other.ix then Panic
      else Ok(ix - other.ix)
    }

    function Number(numBuckets: nat): nat {
      period * numBuckets + ix
    }
  }

  /** The difference is exact, and it panics exactly when the other bucket is more recent. */
  lemma BucketsSinceExact(b: BIx, other: BIx, n: nat)
    requires b.ix < n && other.ix < n
    ensures b.BucketsSince(other, n).Ok? <==> other.Number(n) <= b.Number(n)
    ensures b.BucketsSince(other, n).Ok? ==> b.BucketsSince(other, n).value == b.Number(n) - other.Number(n)
  {
    MulDistributes(b.period, other.period, n);
    if b.period < other.period {
      MulDistributes(b.period, 1, n);
      MulMonotone(b.period + 1, other.period, n);
    } else if b.period > other.period {
      var d := b.period - other.period;
      MulDistributes(d, 1, n);
      MulMonotone(1, d, n);
    }
  }

  /** The largest 64-bit number: what the infinite quotient by a zero width is cast to. */
  const MAX_NUMBER: nat := 0xFFFF_FFFF_FFFF_FFFF

  /** Time is divided into buckets of equal width, counted from the start; zero by zero is cast to zero. */
  function BucketNumber(start: Time, width: nat, ts: Time): nat
    requires ts >= start
  {
    if width == 0 then (if ts == start then 0 else MAX_NUMBER) else (ts - start) / width
  }

  function BIxOf(number: nat): BIx {
    BIx(number / SIZE, number % SIZE)
  }

  predicate InBuckets(start: Time, width: nat, x: Sample, lo: int, hi: int) {
    x.ts >= start && lo <= BucketNumber(start, width, x.ts) <= hi
  }

  /** The accepted samples whose bucket number lies between `lo` and `hi`. */
  function Between(start: Time, width: nat, h: seq<Sample>, lo: int, hi: int): seq<Sample> {
    if h == [] then [] else
    var before := Between(start, width, h[..|h| - 1], lo, hi);
    if InBuckets(start, width, h[|h| - 1], lo, hi) then before + [h[|h| - 1]] else before
  }

  /** The samples come in the order of their buckets. */
  ghost predicate BucketSorted(start: Time, width: nat, h: seq<Sample>) {
    && (forall i | 0 <= i < |h| :: h[i].ts >= start)
    && forall i, j | 0 <= i < j < |h| :: BucketNumber(start, width, h[i].ts) <= BucketNumber(start, width, h[j].ts)
  }

  lemma {:induction false} BetweenNone(start: Time, width: nat, h: seq<Sample>, lo: int, hi: int)
    requires forall i | 0 <= i < |h| :: !InBuckets(start, width, h[i], lo, hi)
    ensures Between(start, width, h, lo, hi) == []
  {
    if h != [] {
      BetweenNone(start, width, h[..|h| - 1], lo, hi);
    }
  }

  /** Consecutive bucket ranges of a sorted history are consecutive pieces of it. */
  lemma {:induction false} BetweenSplits(start: Time, width: nat, h: seq<Sample>, lo: int, mid: int, hi: int)
    requires BucketSorted(start, width, h) && lo <= mid + 1 && mid <= hi
    ensures Between(start, width, h, lo, hi)
            == Between(start, width, h, lo, mid) + Between(start, width, h, mid + 1, hi)
  {
    if h != [] {
      var n := |h| - 1;
      assert BucketSorted(start, width, h[..n]);
      BetweenSplits(start, width, h[..n], lo, mid, hi);
      if InBuckets(start, width, h[n], lo, mid) {
        forall i | 0 <= i < n ensures !InBuckets(start, width, h[..n][i], mid + 1, hi) {
          assert BucketNumber(start, width, h[i].ts) <= BucketNumber(start, width, h[n].ts);
        }
        BetweenNone(start, width, h[..n], mid + 1, hi);
      }
    }
  }

  /** The same samples are kept when no sample lies in the difference of two ranges. */
  lemma {:induction false} BetweenSame(start: Time, width: nat, h: seq<Sample>, lo: int, hi: int, lo': int, hi': int)
    requires forall i | 0 <= i < |h| :: InBuckets(start, width, h[i], lo, hi) <==>
               InBuckets(start, width, h[i], lo', hi')
    ensures Between(start, width, h, lo, hi) == Between(start, width, h, lo', hi')
  {
    if h != [] {
      BetweenSame(start, width, h[..|h| - 1], lo, hi, lo', hi');
    }
  }

  // ---------- the window as a function of its history ----------

  /** The value of a window at a time: the aggregate of exactly the samples in the last 64 buckets. */
  function WindowValue<IV>(s: Summary<IV>, duration: nat, wait: bool, start: Time, h: seq<Sample>,
                           ts: Time): Outcome<Value> {
    var width := duration / SIZE;
    if wait && ts < duration then Ok(Value.None)
    else if ts < start then Panic
    else
      var current := BucketNumber(start, width, ts);
      s.result(Fold(s, s.neutral(ts), Between(start, width, h, current - (SIZE - 1), current)))
  }

  /**
   Precision: a sample at most 63 bucket widths old is always counted; one at least 64 widths
   old, and so one at least as old as the window, never is.
   */
  lemma WindowPrecision(start: Time, duration: nat, x: Sample, ts: Time)
    requires duration >= SIZE && start <= x.ts <= ts
    ensures var width := duration / SIZE;
            var current := BucketNumber(start, width, ts);
            && (ts - x.ts <= (SIZE - 1) * width ==> InBuckets(start, width, x, current - (SIZE - 1), current))
            && (ts - x.ts >= SIZE * width ==> !InBuckets(start, width, x, current - (SIZE - 1), current))
            && (ts - x.ts >= duration ==> !InBuckets(start, width, x, current - (SIZE - 1), current))
  {
    var width := duration / SIZE;
    var a, b := x.ts - start, ts - start;
    DivisionGap(a, b, width);
    assert duration >= SIZE * width;
  }

  /** Below 64 ns the bucket width is zero, and a sample after the start is counted forever, whatever its age. */
  lemma TinyWindowKeepsAll(start: Time, duration: nat, x: Sample, ts: Time)
    requires duration < SIZE && start < x.ts <= ts
    ensures var current := BucketNumber(start, duration / SIZE, ts);
            InBuckets(start, duration / SIZE, x, current - (SIZE - 1), current)
  {
    assert duration / SIZE == 0;
  }

  /** Whether a sample is counted at a time. */
  predicate Counted(start: Time, duration: nat, x: Sample, ts: Time)
    requires start <= x.ts <= ts
  {
    var current := BucketNumber(start, duration / SIZE, ts);
    InBuckets(start, duration / SIZE, x, current - (SIZE - 1), current)
  }

  /** Exactly which samples are counted: those at most 63 buckets before the current one. */
  lemma CountedIff(start: Time, duration: nat, x: Sample, ts: Time)
    requires start <= x.ts <= ts
    ensures duration >= 64 ==>
              (Counted(start, duration, x, ts) <==>
               (ts - start) / (duration / 64) - (x.ts - start) / (duration / 64) <= 63)
    ensures duration < 64 ==> (Counted(start, duration, x, ts) <==> x.ts > start || ts == start)
  {
    if duration >= 64 {
      DivisionGap(x.ts - start, ts - start, duration / 64);
    }
  }

  /** No sample after the start is counted once it is as old as the window. */
  ghost predicate AgesOut(start: Time, duration: nat) {
    forall x: Sample, ts: Time | start < x.ts && x.ts + duration <= ts :: !Counted(start, duration, x, ts)
  }

  /** Which windows forget: those of at least 64 ns; in all others some, indeed every, sample is counted forever. */
  lemma AgesOutIff(start: Time, duration: nat)
    ensures AgesOut(start, duration) <==> duration >= 64
    ensures duration < 64 ==>
              forall x: Sample, ts: Time | start < x.ts <= ts :: Counted(start, duration, x, ts)
  {
    if duration >= SIZE {
      forall x: Sample, ts: Time | start < x.ts && x.ts + duration <= ts ensures !Counted(start, duration, x, ts) {
        WindowPrecision(start, duration, x, ts);
      }
    } else {
      forall x: Sample, ts: Time | start < x.ts <= ts ensures Counted(start, duration, x, ts) {
        TinyWindowKeepsAll(start, duration, x, ts);
      }
      var x := Sample(Value.None, start + 1);
      assert Counted(start, duration, x, x.ts + duration);
    }
  }

  lemma DivisionGap(a: nat, b: nat, w: nat)
    requires w > 0 && a <= b
    ensures a / w <= b / w
    ensures b - a <= (SIZE - 1) * w ==> b / w - a / w <= SIZE - 1
    ensures b - a >= SIZE * w ==> b / w - a / w >= SIZE
  {
    var p, q := a / w, b / w;
    assert a == p * w + a % w && b == q * w + b % w;
    MulDistributes(q, p, w);
    var d := q - p;
    if d < 0 {
      MulMonotone(d, -1, w);
    } else if d >= SIZE {
      MulMonotone(SIZE, d, w);
    } else {
      MulMonotone(d, SIZE - 1, w);
    }
  }

  // ---------- the rotating buckets ----------

  /** The buckets after `n` times dropping the oldest and starting a new one. */
  function Rotated<T>(s: seq<T>, e: T, n: nat): (r: seq<T>)
    requires s != []
    ensures |r| == |s|
  {
    if n == 0 then s else [e] + Rotated(s, e, n - 1)[..|s| - 1]
  }

  lemma {:induction false} RotatedAt<T>(s: seq<T>, e: T, n: nat, i: nat)
    requires i < |s|
    ensures Rotated(s, e, n)[i] == if i < n then e else s[i - n]
  {
    if n > 0 && i > 0 {
      RotatedAt(s, e, n - 1, i - 1);
    }
  }

  /** Bucket `i` is the fold of the samples of bucket number `current - i`, started when it was emptied. */
  ghost predicate Consistent<IV>(s: Summary<IV>, start: Time, width: nat, h: seq<Sample>, buckets: seq<IV>,
                                 stamps: seq<Time>, current: int) {
    && |buckets| == SIZE && |stamps| == SIZE
    && forall i | 0 <= i < SIZE ::
         buckets[i] == Fold(s, s.neutral(stamps[i]), Between(start, width, h, current - i, current - i))
  }

  ghost predicate UpTo(start: Time, width: nat, h: seq<Sample>, current: int) {
    forall j | 0 <= j < |h| :: h[j].ts >= start && BucketNumber(start, width, h[j].ts) <= current
  }

  lemma UpToLater(start: Time, width: nat, h: seq<Sample>, current: int, later: int)
    requires UpTo(start, width, h, current) && current <= later
    ensures UpTo(start, width, h, later)
  {
  }

  /** Rotating by the number of buckets that have passed keeps every sample in its bucket. */
  lemma RotationConsistent<IV>(s: Summary<IV>, start: Time, width: nat, h: seq<Sample>, buckets: seq<IV>,
                               stamps: seq<Time>, current: int, n: nat, ts: Time)
    requires Consistent(s, start, width, h, buckets, stamps, current) && UpTo(start, width, h, current)
    ensures Consistent(s, start, width, h, Rotated(buckets, s.neutral(ts), n), Rotated(stamps, ts, n), current + n)
  {
    forall i | 0 <= i < SIZE
      ensures Rotated(buckets, s.neutral(ts), n)[i]
              == Fold(s, s.neutral(Rotated(stamps, ts, n)[i]),
                      Between(start, width, h, current + n - i, current + n - i))
    {
      RotatedAt(buckets, s.neutral(ts), n, i);
      RotatedAt(stamps, ts, n, i);
      if i < n {
        BetweenNone(start, width, h, current + n - i, current + n - i);
      } else {
        assert current + n - i == current - (i - n);
      }
    }
  }

  /** A sample of the current bucket only changes the newest bucket. */
  lemma AcceptConsistent<IV>(s: Summary<IV>, start: Time, width: nat, h: seq<Sample>, buckets: seq<IV>,
                             stamps: seq<Time>, x: Sample)
    requires x.ts >= start
    requires Consistent(s, start, width, h, buckets, stamps, BucketNumber(start, width, x.ts))
    ensures Consistent(s, start, width, h + [x], buckets[0 := s.add(buckets[0], s.lift(x))], stamps,
                       BucketNumber(start, width, x.ts))
  {
    var current := BucketNumber(start, width, x.ts);
    var h' := h + [x];
    assert h'[..|h'| - 1] == h;
    forall i | 0 <= i < SIZE
      ensures buckets[0 := s.add(buckets[0], s.lift(x))][i]
              == Fold(s, s.neutral(stamps[i]), Between(start, width, h', current - i, current - i))
    {
      var before := Between(start, width, h, current - i, current - i);
      if i == 0 {
        assert Between(start, width, h', current, current) == before + [x];
        assert (before + [x])[..|before|] == before;
      }
    }
  }

  /** Adding the next newer bucket extends the fold by exactly that bucket's samples. */
  lemma AddNextBucket<IV(!new)>(s: Summary<IV>, start: Time, width: nat, h: seq<Sample>, acc: IV, init: IV, t: Time,
                                lo: int, number: int)
    requires Lawful(s) && BucketSorted(start, width, h) && lo <= number
    requires acc == Fold(s, init, Between(start, width, h, lo, number - 1))
    ensures s.add(acc, Fold(s, s.neutral(t), Between(start, width, h, number, number)))
            == Fold(s, init, Between(start, width, h, lo, number))
  {
    var bucket := Between(start, width, h, number, number);
    AddBucket(s, acc, t, bucket);
    FoldConcat(s, init, Between(start, width, h, lo, number - 1), bucket);
    BetweenSplits(start, width, h, lo, number - 1, number);
  }

  /** The buckets from the oldest down to index `i`, combined in that order. */
  function Combined<IV>(s: Summary<IV>, init: IV, buckets: seq<IV>, i: nat): IV
    requires i <= |buckets|
    decreases |buckets| - i
  {
    if i == |buckets| then init else s.add(Combined(s, init, buckets, i + 1), buckets[i])
  }

  /** The fold over the samples of the buckets from the oldest down to index `i`. */
  function FoldedFrom<IV>(s: Summary<IV>, init: IV, start: Time, width: nat, h: seq<Sample>, current: int, i: nat): IV {
    Fold(s, init, Between(start, width, h, current - (SIZE - 1), current - i))
  }

  lemma FoldedFromNothing<IV>(s: Summary<IV>, init: IV, start: Time, width: nat, h: seq<Sample>, current: int)
    ensures FoldedFrom(s, init, start, width, h, current, SIZE) == init
  {
    BetweenNone(start, width, h, current - (SIZE - 1), current - SIZE);
  }

  lemma FoldedFromNext<IV(!new)>(s: Summary<IV>, init: IV, start: Time, width: nat, h: seq<Sample>, buckets: seq<IV>,
                                 stamps: seq<Time>, current: int, i: nat)
    requires Lawful(s) && BucketSorted(start, width, h) && i < SIZE
    requires Consistent(s, start, width, h, buckets, stamps, current)
    ensures s.add(FoldedFrom(s, init, start, width, h, current, i + 1), buckets[i])
            == FoldedFrom(s, init, start, width, h, current, i)
  {
    var acc := FoldedFrom(s, init, start, width, h, current, i + 1);
    AddNextBucket(s, start, width, h, acc, init, stamps[i], current - (SIZE - 1), current - i);
  }

  /** Combining buckets oldest first is folding all their samples. */
  lemma {:induction false} CombinedIsFold<IV(!new)>(s: Summary<IV>, start: Time, width: nat, h: seq<Sample>,
                                                    buckets: seq<IV>, stamps: seq<Time>, current: int, init: IV, i: nat)
    requires Lawful(s) && BucketSorted(start, width, h) && i <= SIZE
    requires Consistent(s, start, width, h, buckets, stamps, current)
    ensures Combined(s, init, buckets, i) == FoldedFrom(s, init, start, width, h, current, i)
    decreases SIZE - i
  {
    if i == SIZE {
      FoldedFromNothing(s, init, start, width, h, current);
    } else {
      CombinedIsFold(s, start, width, h, buckets, stamps, current, init, i + 1);
      FoldedFromNext(s, init, start, width, h, buckets, stamps, current, i);
    }
  }

  lemma SortedSnoc(start: Time, width: nat, h: seq<Sample>, x: Sample)
    requires BucketSorted(start, width, h) && x.ts >= start
    requires UpTo(start, width, h, BucketNumber(start, width, x.ts))
    ensures BucketSorted(start, width, h + [x]) && UpTo(start, width, h + [x], BucketNumber(start, width, x.ts))
  {
  }

  // ---------- the deque as a value ----------

  /** The buckets, newest first, and the bucket reached. */
  datatype Deque<IV> = Deque(buckets: seq<IV>, last: BIx)

  function EmptyDeque<IV>(s: Summary<IV>, start: Time): Deque<IV> {
    Deque(seq(SIZE, _ => s.neutral(start)), BIx(0, 0))
  }

  /** Advances to the bucket of `ts`, starting an empty bucket for each one that has passed. */
  function Advanced<IV>(s: Summary<IV>, start: Time, width: nat, d: Deque<IV>, ts: Time): Outcome<Deque<IV>>
    requires d.buckets != []
  {
    if ts < start then Panic else
    var curr := BIxOf(BucketNumber(start, width, ts));
    var diff :- curr.BucketsSince(d.last, SIZE);
    Ok(Deque(Rotated(d.buckets, s.neutral(ts), diff), curr))
  }

  /** Advances to the bucket of the sample and combines it into the newest bucket. */
  function Extended<IV>(s: Summary<IV>, start: Time, width: nat, d: Deque<IV>, x: Sample): Outcome<Deque<IV>>
    requires d.buckets != []
  {
    var e :- Advanced(s, start, width, d, x.ts);
    Ok(e.(buckets := e.buckets[0 := s.add(e.buckets[0], s.lift(x))]))
  }

  /** What the deque reports: all buckets combined, oldest first. */
  function Reported<IV>(s: Summary<IV>, duration: nat, wait: bool, d: Deque<IV>, ts: Time): Outcome<Value> {
    if wait && ts < duration then Ok(Value.None) else s.result(Combined(s, s.neutral(ts), d.buckets, 0))
  }

  class WindowInstance<IV(!new)> {
    const summary: Summary<IV>
    const timePerBucket: nat
    const startTime: Time
    const wait: bool
    const waitDuration: nat
    var buckets: seq<IV>
    var lastBucketIx: BIx
    ghost var history: seq<Sample>  // everything accepted so far, oldest first
    ghost var stamps: seq<Time>     // when each bucket was emptied

    ghost predicate Valid()
      reads this
    {
      && timePerBucket == waitDuration / SIZE && lastBucketIx.ix < SIZE
      && BucketSorted(startTime, timePerBucket, history)
      && UpTo(startTime, timePerBucket, history, lastBucketIx.Number(SIZE))
      && Consistent(summary, startTime, timePerBucket, history, buckets, stamps, lastBucketIx.Number(SIZE))
    }

    function AsDeque(): Deque<IV>
      reads this
    {
      Deque(buckets, lastBucketIx)
    }

    constructor (summary: Summary<IV>, duration: nat, wait: bool, ts: Time)
      ensures AsDeque() == EmptyDeque(summary, ts)
      ensures Valid() && history == [] && lastBucketIx == BIx(0, 0)
      ensures this.summary == summary && waitDuration == duration && this.wait == wait && startTime == ts
    {
      this.summary := summary;
      timePerBucket := duration / SIZE;
      startTime := ts;
      this.wait := wait;
      waitDuration := duration;
      buckets := seq(SIZE, _ => summary.neutral(ts));
      lastBucketIx := BIx(0, 0);
      history := [];
      stamps := seq(SIZE, _ => ts);
    }

    /** The bucket of a time; a time before the start fails an assertion. */
    method GetCurrentBucket(ts: Time) returns (b: Outcome<BIx>)
      ensures b.Ok? <==> ts >= startTime
      ensures b.Ok? ==> b.value == BIxOf(BucketNumber(startTime, timePerBucket, ts))
      ensures b.Ok? ==> b.value.ix < SIZE && b.value.Number(SIZE) == BucketNumber(startTime, timePerBucket, ts)
    {
      if ts < startTime {
        return Panic;
      }
      var overall: nat;
      if timePerBucket == 0 {
        overall := if ts == startTime then 0 else MAX_NUMBER;
      } else {
        overall := (ts - startTime) / timePerBucket;
      }
      return Ok(BIxOf(overall));
    }

    /** Drops the `n` oldest buckets and starts `n` empty ones. */
    method InvalidateN(n: nat, ts: Time)
      requires buckets != [] && stamps != []
      modifies this`buckets, this`stamps
      ensures buckets == Rotated(old(buckets), summary.neutral(ts), n)
      ensures stamps == Rotated(old(stamps), ts, n)
    {
      for k := 0 to n
        invariant buckets == Rotated(old(buckets), summary.neutral(ts), k)
        invariant stamps == Rotated(old(stamps), ts, k)
      {
        buckets := buckets[..|buckets| - 1];
        buckets := [summary.neutral(ts)] + buckets;
        stamps := [ts] + stamps[..|stamps| - 1];
      }
    }

    /** Advances to the bucket of `ts`; it panics exactly if that bucket lies in the past. */
    method UpdateBuckets(ts: Time) returns (ok: bool)
      requires Valid()
      modifies this
      ensures Valid() && history == old(history)
      ensures ok <==> ts >= startTime && BucketNumber(startTime, timePerBucket, ts) >= old(lastBucketIx.Number(SIZE))
      ensures ok ==> lastBucketIx.Number(SIZE) == BucketNumber(startTime, timePerBucket, ts)
      ensures !ok ==> lastBucketIx == old(lastBucketIx)
      ensures Advanced(summary, startTime, timePerBucket, old(AsDeque()), ts) == if ok then Ok(AsDeque()) else Panic
    {
      var curr := GetCurrentBucket(ts);
      ok := curr.Ok?;
      if ok {
        var diff := curr.value.BucketsSince(lastBucketIx, |buckets|);
        BucketsSinceExact(curr.value, lastBucketIx, SIZE);
        ok := diff.Ok?;
        if ok {
          Advance(curr.value, diff.value, ts);
        }
      }
    }

    /** Invalidates the buckets that have passed and makes `curr` the newest one. */
    method Advance(curr: BIx, diff: nat, ts: Time)
      requires Valid() && curr.Number(SIZE) == lastBucketIx.Number(SIZE) + diff && 0 <= curr.ix < SIZE
      modifies this
      ensures Valid() && history == old(history) && lastBucketIx == curr
      ensures buckets == Rotated(old(buckets), summary.neutral(ts), diff)
    {
      ghost var now := curr.Number(SIZE);
      RotationConsistent(summary, startTime, timePerBucket, history, buckets, stamps, lastBucketIx.Number(SIZE), diff,
                         ts);
      UpToLater(startTime, timePerBucket, history, lastBucketIx.Number(SIZE), now);
      InvalidateN(diff, ts);
      assert Consistent(summary, startTime, timePerBucket, history, buckets, stamps, now);
      lastBucketIx := curr;
    }

    /** Accepts a value into the newest bucket. */
    method AcceptValue(v: Value, ts: Time) returns (ok: bool)
      requires Valid()
      modifies this
      ensures Valid()
      ensures ok <==> ts >= startTime && BucketNumber(startTime, timePerBucket, ts) >= old(lastBucketIx.Number(SIZE))
      ensures ok ==> history == old(history) + [Sample(v, ts)]
      ensures ok ==> lastBucketIx.Number(SIZE) == BucketNumber(startTime, timePerBucket, ts)
      ensures !ok ==> history == old(history) && lastBucketIx == old(lastBucketIx)
      ensures Extended(summary, startTime, timePerBucket, old(AsDeque()), Sample(v, ts)) == if ok then Ok(AsDeque())
              else Panic
    {
      ok := UpdateBuckets(ts);
      if ok {
        AcceptConsistent(summary, startTime, timePerBucket, history, buckets, stamps, Sample(v, ts));
        SortedSnoc(startTime, timePerBucket, history, Sample(v, ts));
        buckets := buckets[0 := summary.add(buckets[0], summary.lift(Sample(v, ts)))];
        history := history + [Sample(v, ts)];
      }
    }

    /**
     After an update to `ts`, the value is the aggregate of exactly the accepted samples whose
     bucket number is among the last 64.
     */
    method GetValue(ts: Time) returns (r: Outcome<Value>)
      requires Valid() && Lawful(summary)
      requires ts >= startTime && lastBucketIx.Number(SIZE) == BucketNumber(startTime, timePerBucket, ts)
      ensures r == WindowValue(summary, waitDuration, wait, startTime, history, ts)
      ensures r == Reported(summary, waitDuration, wait, AsDeque(), ts)
      ensures wait && ts < waitDuration ==> r == Ok(Value.None)
      ensures !(wait && ts < waitDuration) ==>
                var current := BucketNumber(startTime, waitDuration / 64, ts);
                r == summary.result(Fold(summary, summary.neutral(ts),
                                         Between(startTime, waitDuration / 64, history, current - 63, current)))
    {
      if wait && ts < waitDuration {
        return Ok(Value.None);
      }
      var acc := summary.neutral(ts);
      for i := |buckets| downto 0
        invariant acc == Combined(summary, summary.neutral(ts), buckets, i)
      {
        acc := summary.add(acc, buckets[i]);
      }
      CombinedIsFold(summary, startTime, timePerBucket, history, buckets, stamps, lastBucketIx.Number(SIZE),
                     summary.neutral(ts), 0);
      return summary.result(acc);
    }
  }
}
