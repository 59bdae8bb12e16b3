/**
 Whole runs of a window: after any log of accepts and updates in time order, the deque reports the
 aggregate of its last 64 buckets.
 */
module WindowRuns {
  import opened Numbers
  import opened Values
  import opened WindowLogs
  import opened Windows

  lemma NumberGrows(start: Time, width: nat, a: Time, b: Time)
    requires start <= a <= b
    ensures BucketNumber(start, width, a) <= BucketNumber(start, width, b)
  {
    if width > 0 {
      DivisionGap(a - start, b - start, width);
    }
  }

  // ---------- one operation ----------

  function Applied<IV>(s: Summary<IV>, start: Time, width: nat, d: Deque<IV>, op: Operation): Outcome<Deque<IV>>
    requires d.buckets != []
  {
    match op
    case Accept(x) => Extended(s, start, width, d, x)
    case Update(at) => Advanced(s, start, width, d, at)
  }

  /** The deque is consistent with the samples, which are in the order of their buckets. */
  ghost predicate Bucketed<IV>(s: Summary<IV>, start: Time, width: nat, h: seq<Sample>, d: Deque<IV>,
                               stamps: seq<Time>) {
    && d.last.ix < SIZE && BucketSorted(start, width, h) && UpTo(start, width, h, d.last.Number(SIZE))
    && Consistent(s, start, width, h, d.buckets, stamps, d.last.Number(SIZE))
  }

  lemma AdvancedBucketed<IV>(s: Summary<IV>, start: Time, width: nat, h: seq<Sample>, d: Deque<IV>, stamps: seq<Time>,
                             ts: Time)
    returns (stamps': seq<Time>)
    requires Bucketed(s, start, width, h, d, stamps)
    requires ts >= start && BucketNumber(start, width, ts) >= d.last.Number(SIZE)
    ensures var r := Advanced(s, start, width, d, ts);
            && r.Ok? && Bucketed(s, start, width, h, r.value, stamps')
            && r.value.last.Number(SIZE) == BucketNumber(start, width, ts)
  {
    var curr := BIxOf(BucketNumber(start, width, ts));
    BucketsSinceExact(curr, d.last, SIZE);
    var diff := curr.BucketsSince(d.last, SIZE).value;
    RotationConsistent(s, start, width, h, d.buckets, stamps, d.last.Number(SIZE), diff, ts);
    UpToLater(start, width, h, d.last.Number(SIZE), curr.Number(SIZE));
    stamps' := Rotated(stamps, ts, diff);
  }

  lemma ExtendedBucketed<IV>(s: Summary<IV>, start: Time, width: nat, h: seq<Sample>, d: Deque<IV>, stamps: seq<Time>,
                             x: Sample)
    returns (stamps': seq<Time>)
    requires Bucketed(s, start, width, h, d, stamps)
    requires x.ts >= start && BucketNumber(start, width, x.ts) >= d.last.Number(SIZE)
    ensures var r := Extended(s, start, width, d, x);
            && r.Ok? && Bucketed(s, start, width, h + [x], r.value, stamps')
            && r.value.last.Number(SIZE) == BucketNumber(start, width, x.ts)
  {
    stamps' := AdvancedBucketed(s, start, width, h, d, stamps, x.ts);
    var e := Advanced(s, start, width, d, x.ts).value;
    AcceptConsistent(s, start, width, h, e.buckets, stamps', x);
    SortedSnoc(start, width, h, x);
  }

  function WithAccepted(h: seq<Sample>, op: Operation): seq<Sample> {
    if op.Accept? then h + [op.x] else h
  }

  lemma AppliedBucketed<IV>(s: Summary<IV>, start: Time, width: nat, h: seq<Sample>, d: Deque<IV>, stamps: seq<Time>,
                            op: Operation)
    returns (stamps': seq<Time>)
    requires Bucketed(s, start, width, h, d, stamps) && d.buckets != []
    requires TimeOf(op) >= start && BucketNumber(start, width, TimeOf(op)) >= d.last.Number(SIZE)
    ensures var r := Applied(s, start, width, d, op);
            && r.Ok? && Bucketed(s, start, width, WithAccepted(h, op), r.value, stamps')
            && r.value.last.Number(SIZE) == BucketNumber(start, width, TimeOf(op))
  {
    match op
    case Accept(x) => stamps' := ExtendedBucketed(s, start, width, h, d, stamps, x);
    case Update(at) => stamps' := AdvancedBucketed(s, start, width, h, d, stamps, at);
  }

  // ---------- replaying a log ----------

  /** The deque after everything in the log has happened to it. */
  function Replay<IV>(s: Summary<IV>, start: Time, width: nat, first: Deque<IV>,
                      log: seq<Operation>): (r: Outcome<Deque<IV>>)
    requires first.buckets != []
    ensures r.Ok? ==> r.value.buckets != []
  {
    if log == [] then Ok(first) else
    var d :- Replay(s, start, width, first, log[..|log| - 1]);
    Applied(s, start, width, d, log[|log| - 1])
  }

  lemma AcceptedLast(log: seq<Operation>)
    requires log != []
    ensures AcceptedIn(log) == WithAccepted(AcceptedIn(log[..|log| - 1]), log[|log| - 1])
  {
  }

  /**
   Nothing in the log panics, every bucket is the fold of its samples, and the last one is that of
   the last operation.
   */
  ghost predicate ReplaysTo<IV>(s: Summary<IV>, start: Time, width: nat, first: Deque<IV>, log: seq<Operation>,
                                d: Deque<IV>, stamps: seq<Time>)
    requires first.buckets != [] && LastTime(start, log) >= start
  {
    && Replay(s, start, width, first, log) == Ok(d) && Bucketed(s, start, width, AcceptedIn(log), d, stamps)
    && d.last.Number(SIZE) == BucketNumber(start, width, LastTime(start, log))
  }

  lemma ReplayMore<IV>(s: Summary<IV>, start: Time, width: nat, first: Deque<IV>, log: seq<Operation>, d: Deque<IV>,
                       stamps: seq<Time>)
    returns (d': Deque<IV>, stamps': seq<Time>)
    requires first.buckets != [] && log != [] && InTime(start, log)
    requires ReplaysTo(s, start, width, first, log[..|log| - 1], d, stamps)
    ensures ReplaysTo(s, start, width, first, log, d', stamps')
  {
    var op := log[|log| - 1];
    NumberGrows(start, width, LastTime(start, log[..|log| - 1]), LastTime(start, log));
    AcceptedLast(log);
    stamps' := AppliedBucketed(s, start, width, AcceptedIn(log[..|log| - 1]), d, stamps, op);
    d' := Applied(s, start, width, d, op).value;
  }

  /** Replaying a log in time order on a deque to which nothing has happened. */
  lemma {:induction false} ReplayBucketed<IV>(s: Summary<IV>, start: Time, width: nat, first: Deque<IV>,
                                              firstStamps: seq<Time>,
                                              log: seq<Operation>)
    returns (d: Deque<IV>, stamps: seq<Time>)
    requires first.buckets != [] && Bucketed(s, start, width, [], first, firstStamps) && first.last.Number(SIZE) == 0
    requires InTime(start, log)
    ensures LastTime(start, log) >= start && ReplaysTo(s, start, width, first, log, d, stamps)
  {
    if log == [] {
      d, stamps := first, firstStamps;
    } else {
      d, stamps := ReplayBucketed(s, start, width, first, firstStamps, log[..|log| - 1]);
      d, stamps := ReplayMore(s, start, width, first, log, d, stamps);
    }
  }

  lemma NewBucketed<IV>(s: Summary<IV>, start: Time, width: nat) returns (first: Deque<IV>, stamps: seq<Time>)
    ensures IsNew(s, start, first) && first.buckets != []
    ensures Bucketed(s, start, width, [], first, stamps) && first.last.Number(SIZE) == 0
  {
    first := EmptyDeque(s, start);
    stamps := EmptyBucketed(s, start, width, first);
  }

  ghost predicate IsNew<IV>(s: Summary<IV>, start: Time, d: Deque<IV>) {
    d.buckets == EmptyDeque(s, start).buckets && d.last.period == d.last.ix == 0
  }

  lemma EmptyBucketed<IV>(s: Summary<IV>, start: Time, width: nat, d: Deque<IV>) returns (stamps: seq<Time>)
    requires d == EmptyDeque(s, start)
    ensures Bucketed(s, start, width, [], d, stamps) && d.last.Number(SIZE) == 0
  {
    stamps := seq(SIZE, _ => start);
    forall i | 0 <= i < SIZE ensures d.buckets[i] == s.neutral(start) && stamps[i] == start {
    }
    forall i: int ensures Between(start, width, [], i, i) == [] {
    }
  }

  /** What a new deque reports after everything in the log has happened to it. */
  function Report<IV>(s: Summary<IV>, duration: nat, wait: bool, start: Time, log: seq<Operation>,
                      ts: Time): Outcome<Value> {
    var d :- Replay(s, start, duration / SIZE, EmptyDeque(s, start), log);
    Reported(s, duration, wait, d, ts)
  }

  lemma DequeReportsValue<IV(!new)>(s: Summary<IV>, duration: nat, wait: bool, start: Time, h: seq<Sample>,
                                    d: Deque<IV>,
                                    stamps: seq<Time>, ts: Time)
    requires Lawful(s) && Bucketed(s, start, duration / SIZE, h, d, stamps)
    requires ts >= start && d.last.Number(SIZE) == BucketNumber(start, duration / SIZE, ts)
    ensures Reported(s, duration, wait, d, ts) == WindowValue(s, duration, wait, start, h, ts)
  {
    CombinedIsFold(s, start, duration / SIZE, h, d.buckets, stamps, d.last.Number(SIZE), s.neutral(ts), 0);
  }

  lemma ReplayReports<IV(!new)>(s: Summary<IV>, duration: nat, wait: bool, start: Time, first: Deque<IV>,
                                firstStamps: seq<Time>,
                                log: seq<Operation>, ts: Time)
    requires first.buckets != [] && Bucketed(s, start, duration / SIZE, [], first, firstStamps)
             && first.last.Number(SIZE) == 0
    requires Lawful(s) && UpToDate(start, log, ts)
    ensures var d := Replay(s, start, duration / SIZE, first, log);
            d.Ok? && Reported(s, duration, wait, d.value, ts)
                == WindowValue(s, duration, wait, start, AcceptedIn(log), ts)
  {
    var d, stamps := ReplayBucketed(s, start, duration / SIZE, first, firstStamps, log);
    DequeReportsValue(s, duration, wait, start, AcceptedIn(log), d, stamps, ts);
  }

  lemma ReportOfNew<IV>(s: Summary<IV>, duration: nat, wait: bool, start: Time, first: Deque<IV>, log: seq<Operation>,
                        ts: Time)
    requires IsNew(s, start, first) && first.buckets != []
    ensures var d := Replay(s, start, duration / SIZE, first, log);
            Report(s, duration, wait, start, log, ts) == if d.Panic? then Panic
                else Reported(s, duration, wait, d.value, ts)
  {
    assert first == EmptyDeque(s, start);
  }

  /** Whatever has happened to it in time order, an up-to-date deque reports the aggregate of what it has accepted. */
  lemma ReportIsValue<IV(!new)>(s: Summary<IV>, duration: nat, wait: bool, start: Time, log: seq<Operation>, ts: Time)
    requires Lawful(s) && UpToDate(start, log, ts)
    ensures Report(s, duration, wait, start, log, ts) == WindowValue(s, duration, wait, start, AcceptedIn(log), ts)
  {
    var first, stamps := NewBucketed(s, start, duration / SIZE);
    ReplayReports(s, duration, wait, start, first, stamps, log, ts);
    ReportOfNew(s, duration, wait, start, first, log, ts);
  }

  // ---------- driving a window ----------

  /** Applies one operation. */
  method Apply<IV(!new)>(window: WindowInstance<IV>, op: Operation) returns (ok: bool)
    requires window.Valid()
    modifies window
    ensures window.Valid()
    ensures Applied(window.summary, window.startTime, window.timePerBucket, old(window.AsDeque()), op)
            == if ok then Ok(window.AsDeque()) else Panic
    ensures ok ==> window.history == WithAccepted(old(window.history), op)
  {
    match op
    case Accept(x) => ok := window.AcceptValue(x.v, x.ts);
    case Update(at) => ok := window.UpdateBuckets(at);
  }

  lemma ReplayNext<IV>(s: Summary<IV>, start: Time, width: nat, first: Deque<IV>, log: seq<Operation>, i: nat)
    requires first.buckets != [] && i < |log|
    ensures AcceptedIn(log[..i + 1]) == WithAccepted(AcceptedIn(log[..i]), log[i])
    ensures var d := Replay(s, start, width, first, log[..i]);
            Replay(s, start, width, first, log[..i + 1]) == if d.Panic? then Panic
                else Applied(s, start, width, d.value, log[i])
  {
    assert log[..i + 1][..i] == log[..i];
  }

  lemma {:induction false} ReplayPanics<IV>(s: Summary<IV>, start: Time, width: nat, first: Deque<IV>,
                                            log: seq<Operation>, i: nat)
    requires first.buckets != [] && i <= |log| && Replay(s, start, width, first, log[..i]).Panic?
    ensures Replay(s, start, width, first, log).Panic?
    decreases |log| - i
  {
    if i == |log| {
      assert log[..i] == log;
    } else {
      ReplayNext(s, start, width, first, log, i);
      ReplayPanics(s, start, width, first, log, i + 1);
    }
  }

  /** The window is where the log leads from `first`. */
  ghost predicate Follows<IV(!new)>(window: WindowInstance<IV>, first: Deque<IV>, log: seq<Operation>)
    reads window
    requires first.buckets != []
  {
    && window.history == AcceptedIn(log)
    && Replay(window.summary, window.startTime, window.timePerBucket, first, log) == Ok(window.AsDeque())
  }

  lemma WholeLog(log: seq<Operation>)
    ensures log[..|log|] == log
  {
  }

  /** Applies the operations in turn to a window to which nothing has happened. */
  method ApplyAll<IV(!new)>(window: WindowInstance<IV>, log: seq<Operation>) returns (ok: bool)
    requires window.Valid() && window.history == []
    modifies window
    ensures window.Valid() && (ok ==> Follows(window, old(window.AsDeque()), log))
    ensures !ok ==> Replay(window.summary, window.startTime, window.timePerBucket, old(window.AsDeque()), log).Panic?
  {
    ghost var first := window.AsDeque();
    for i := 0 to |log|
      invariant window.Valid() && Follows(window, first, log[..i])
    {
      ReplayNext(window.summary, window.startTime, window.timePerBucket, first, log, i);
      var next := Apply(window, log[i]);
      if !next {
        ReplayPanics(window.summary, window.startTime, window.timePerBucket, first, log, i + 1);
        return false;
      }
    }
    WholeLog(log);
    return true;
  }

  /**
   Whatever a new window accepted and was updated to in time order, nothing panics, and the value
   read at the time of the last operation is the aggregate of exactly the accepted samples in the
   last 64 buckets.
   */
  method RunWindow<IV(!new)>(window: WindowInstance<IV>, log: seq<Operation>) returns (v: Outcome<Value>)
    requires window.Valid() && window.history == [] && window.lastBucketIx.Number(SIZE) == 0 && Lawful(window.summary)
    requires UpToDate(window.startTime, log, LastTime(window.startTime, log))
    modifies window
    ensures window.Valid() && window.history == AcceptedIn(log)
    ensures v == WindowValue(window.summary, window.waitDuration, window.wait, window.startTime, AcceptedIn(log),
                             LastTime(window.startTime, log))
    ensures window.wait && LastTime(window.startTime, log) < window.waitDuration ==> v == Ok(Value.None)
  {
    ghost var d, stamps := ReplayBucketed(
        window.summary, window.startTime, window.timePerBucket, window.AsDeque(), window.stamps, log);
    var ok := ApplyAll(window, log);
    v := window.GetValue(LastTime(window.startTime, log));
  }
}
