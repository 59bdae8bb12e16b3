/** The offline controller: it merges the infinite cycle of deadlines with the input events. */
module Controller {
  import opened Sequences
  import opened Values
  import opened Schedules
  import Steps = Evaluator
  import EvaluatorClass

  datatype WorkItem = EventItem(vals: seq<Value>, ts: Time) | EndItem

  // ---------- the event source ----------

  function Items(events: seq<Steps.Step>, n: nat): seq<WorkItem>
    requires n <= |events|
  {
    if n == 0 then []
    else Items(events, n - 1) + [EventItem(if events[n - 1].Event? then events[n - 1].vals else [], events[n - 1].ts)]
  }

  /** Sends the events in batches of a fixed capacity, the end marker with the last batch. */
  method StartOffline(events: seq<Steps.Step>, capacity: nat) returns (queues: seq<seq<WorkItem>>)
    requires capacity > 0 && forall i | 0 <= i < |events| :: events[i].Event?
    ensures Flatten(queues) == Items(events, |events|) + [EndItem]
    ensures forall i | 0 <= i < |queues| :: |queues[i]| <= capacity
  {
    queues := [];
    var next := 0;
    while true
      invariant next <= |events| && Flatten(queues) == Items(events, next)
      invariant forall i | 0 <= i < |queues| :: |queues[i]| <= capacity
      decreases |events| - next
    {
      var localQueue: seq<WorkItem> := [];
      ghost var start := next;
      for i := 0 to capacity
        invariant start <= next <= |events| && |localQueue| == i && next == start + i
        invariant Items(events, start) + localQueue == Items(events, next)
      {
        if next == |events| {
          localQueue := localQueue + [EndItem];
          FlattenSnoc(queues, localQueue);
          queues := queues + [localQueue];
          return;
        }
        localQueue := localQueue + [EventItem(events[next].vals, events[next].ts)];
        next := next + 1;
      }
      FlattenSnoc(queues, localQueue);
      queues := queues + [localQueue];
    }
  }

  // ---------- the infinite cycle of deadlines ----------

  /** The time of deadline `k`: deadline 0 is at the start, and the pauses of the cycle follow. */
  function DeadlineTime(deadlines: seq<Deadline>, k: nat): Time
    requires deadlines != []
  {
    if k == 0 then 0 else DeadlineTime(deadlines, k - 1) + deadlines[(k - 1) % |deadlines|].pause
  }

  /** What is due at deadline `k`: at the start, what is due at the end of a cycle. */
  function DueAt(deadlines: seq<Deadline>, k: nat): seq<nat>
    requires deadlines != []
  {
    if k == 0 then deadlines[|deadlines| - 1].due else deadlines[(k - 1) % |deadlines|].due
  }

  function FirstDeadlines(deadlines: seq<Deadline>, k: nat): seq<Steps.Step>
    requires deadlines != []
  {
    if k == 0 then []
    else FirstDeadlines(deadlines, k - 1) + [Steps.Deadline(DueAt(deadlines, k - 1), DeadlineTime(deadlines, k - 1))]
  }

  ghost predicate PositivePauses(deadlines: seq<Deadline>) {
    forall i | 0 <= i < |deadlines| :: deadlines[i].pause > 0
  }

  /** The pause after deadline `m`. */
  function PauseAfter(deadlines: seq<Deadline>, m: nat): nat
    requires deadlines != []
  {
    deadlines[m % |deadlines|].pause
  }

  /** The first `k` deadlines are followed by positive pauses. */
  ghost predicate PausedBefore(deadlines: seq<Deadline>, k: nat) {
    deadlines != [] ==> forall m: nat | m < k :: PauseAfter(deadlines, m) > 0
  }

  /** Every deadline up to the time is followed by a positive pause. */
  ghost predicate AdvancesTo(deadlines: seq<Deadline>, time: Time) {
    deadlines != [] ==> forall m: nat | DeadlineTime(deadlines, m) <= time :: PauseAfter(deadlines, m) > 0
  }

  lemma PositiveAdvances(deadlines: seq<Deadline>, time: Time)
    requires PositivePauses(deadlines)
    ensures AdvancesTo(deadlines, time)
  {
  }

  /** A replay advances to every time exactly if no pause of the cycle is zero. */
  lemma AdvancesAlwaysIff(deadlines: seq<Deadline>)
    ensures (forall time: Time :: AdvancesTo(deadlines, time)) <==> PositivePauses(deadlines)
  {
    if forall time: Time :: AdvancesTo(deadlines, time) {
      forall i | 0 <= i < |deadlines| ensures deadlines[i].pause > 0 {
        assert AdvancesTo(deadlines, DeadlineTime(deadlines, i));
        PauseInCycle(deadlines, i);
      }
    }
    if PositivePauses(deadlines) {
      forall time: Time ensures AdvancesTo(deadlines, time) {
        PositiveAdvances(deadlines, time);
      }
    }
  }

  /** Past its first cycle, a replay advances exactly if no pause of the cycle is zero. */
  lemma AdvancesPastCycleIff(deadlines: seq<Deadline>, time: Time)
    requires deadlines != [] && DeadlineTime(deadlines, |deadlines|) <= time
    ensures AdvancesTo(deadlines, time) <==> PositivePauses(deadlines)
  {
    if AdvancesTo(deadlines, time) {
      forall i | 0 <= i < |deadlines| ensures deadlines[i].pause > 0 {
        DeadlinesAscend(deadlines, i, |deadlines|);
        PauseInCycle(deadlines, i);
      }
    }
  }

  /** With no pause after the first deadline, it advances to no time. */
  lemma NeverAdvances(deadlines: seq<Deadline>, time: Time)
    requires deadlines != [] && deadlines[0].pause == 0
    ensures !AdvancesTo(deadlines, time)
  {
    assert DeadlineTime(deadlines, 0) <= time && PauseAfter(deadlines, 0) == 0;
  }

  lemma PauseInCycle(deadlines: seq<Deadline>, i: nat)
    requires i < |deadlines|
    ensures PauseAfter(deadlines, i) == deadlines[i].pause
  {
  }

  /** The deadlines up to a time are counted by the first one after it. */
  lemma CountedAdvance(deadlines: seq<Deadline>, k: nat, time: Time)
    requires deadlines != [] ==> CountsDeadlines(deadlines, k, time)
    requires PausedBefore(deadlines, k)
    ensures AdvancesTo(deadlines, time)
  {
    if deadlines != [] {
      forall m: nat | DeadlineTime(deadlines, m) <= time ensures PauseAfter(deadlines, m) > 0 {
        if m >= k {
          DeadlinesAscend(deadlines, k, m);
        }
      }
    }
  }

  ghost predicate TimesAscend(events: seq<Steps.Step>) {
    forall i, j | 0 <= i < j < |events| :: events[i].ts <= events[j].ts
  }

  // ---------- what a merge is ----------

  function EventsOf(trace: seq<Steps.Step>): seq<Steps.Step> {
    if trace == [] then []
    else EventsOf(trace[..|trace| - 1]) + (if trace[|trace| - 1].Event? then [trace[|trace| - 1]] else [])
  }

  function DeadlinesOf(trace: seq<Steps.Step>): seq<Steps.Step> {
    if trace == [] then []
    else DeadlinesOf(trace[..|trace| - 1]) + (if trace[|trace| - 1].Deadline? then [trace[|trace| - 1]] else [])
  }

  /** A deadline comes after all events at or before it, and before all later events. */
  ghost predicate Interleaved(trace: seq<Steps.Step>) {
    forall i, j | 0 <= i < j < |trace| ::
      && (trace[i].Event? && trace[j].Deadline? ==> trace[i].ts <= trace[j].ts)
      && (trace[i].Deadline? && trace[j].Event? ==> trace[i].ts < trace[j].ts)
  }

  /** The trace interleaves exactly the given events and the first `k` deadlines, each in their order. */
  ghost predicate Merges(trace: seq<Steps.Step>, events: seq<Steps.Step>, deadlines: seq<Deadline>, k: nat) {
    && EventsOf(trace) == events
    && DeadlinesOf(trace) == (if deadlines == [] then [] else FirstDeadlines(deadlines, k))
    && Interleaved(trace)
  }

  /** `k` counts exactly the deadlines up to the given time. */
  ghost predicate CountsDeadlines(deadlines: seq<Deadline>, k: nat, time: Time)
    requires deadlines != []
  {
    && DeadlineTime(deadlines, k) > time
    && (k > 0 ==> DeadlineTime(deadlines, k - 1) <= time)
  }

  lemma {:induction false} DeadlinesAscend(deadlines: seq<Deadline>, i: nat, j: nat)
    requires deadlines != [] && i <= j
    ensures DeadlineTime(deadlines, i) <= DeadlineTime(deadlines, j)
    ensures i < j && PositivePauses(deadlines) ==> DeadlineTime(deadlines, i) < DeadlineTime(deadlines, j)
    decreases j
  {
    if i < j {
      DeadlinesAscend(deadlines, i, j - 1);
    }
  }

  /** There is only one number of deadlines up to a given time. */
  lemma CountUnique(deadlines: seq<Deadline>, k: nat, l: nat, time: Time)
    requires deadlines != [] && CountsDeadlines(deadlines, k, time) && CountsDeadlines(deadlines, l, time)
    ensures k == l
  {
    if k < l {
      DeadlinesAscend(deadlines, k, l - 1);
    } else if l < k {
      DeadlinesAscend(deadlines, l, k - 1);
    }
  }

  lemma {:induction false} MembersOf(trace: seq<Steps.Step>, i: nat)
    requires i < |trace|
    ensures trace[i].Event? ==> trace[i] in EventsOf(trace)
    ensures trace[i].Deadline? ==> trace[i] in DeadlinesOf(trace)
  {
    if i < |trace| - 1 {
      MembersOf(trace[..|trace| - 1], i);
    }
  }

  lemma {:induction false} FirstDeadlinesBefore(deadlines: seq<Deadline>, k: nat, d: Steps.Step)
    requires deadlines != [] && d in FirstDeadlines(deadlines, k)
    ensures exists j :: 0 <= j < k && d == Steps.Deadline(DueAt(deadlines, j), DeadlineTime(deadlines, j))
  {
    if d in FirstDeadlines(deadlines, k - 1) {
      FirstDeadlinesBefore(deadlines, k - 1, d);
    }
  }

  lemma LastDeadline(trace: seq<Steps.Step>, deadlines: seq<Deadline>, k: nat)
    requires trace != [] && trace[|trace| - 1].Deadline?
    requires DeadlinesOf(trace) == if deadlines == [] then [] else FirstDeadlines(deadlines, k)
    ensures deadlines != [] && k > 0 && trace[|trace| - 1].ts == DeadlineTime(deadlines, k - 1)
    ensures DeadlinesOf(trace[..|trace| - 1]) == FirstDeadlines(deadlines, k - 1)
  {
    var before := DeadlinesOf(trace[..|trace| - 1]);
    assert DeadlinesOf(trace) == before + [trace[|trace| - 1]];
    assert deadlines != [] && k > 0;
    assert DeadlinesOf(trace)[..|before|] == before;
    var d := Steps.Deadline(DueAt(deadlines, k - 1), DeadlineTime(deadlines, k - 1));
    assert FirstDeadlines(deadlines, k) == FirstDeadlines(deadlines, k - 1) + [d];
    assert |FirstDeadlines(deadlines, k - 1)| == |before|;
    assert (FirstDeadlines(deadlines, k - 1) + [d])[..|before|] == FirstDeadlines(deadlines, k - 1);
    assert (before + [trace[|trace| - 1]])[|before|] == (FirstDeadlines(deadlines, k - 1) + [d])[|before|];
  }

  lemma EventNotAfterLast(trace: seq<Steps.Step>, events: seq<Steps.Step>, i: nat)
    requires EventsOf(trace) == events && TimesAscend(events) && i < |trace| - 1
    requires trace[i].Event? && trace[|trace| - 1].Event?
    ensures trace[i].ts <= trace[|trace| - 1].ts
  {
    var init := trace[..|trace| - 1];
    MembersOf(init, i);
    assert events == EventsOf(init) + [trace[|trace| - 1]];
    var j :| 0 <= j < |EventsOf(init)| && EventsOf(init)[j] == trace[i];
    assert events[j] == trace[i] && events[|events| - 1] == trace[|trace| - 1];
  }

  lemma DeadlineNotAfterLast(trace: seq<Steps.Step>, deadlines: seq<Deadline>, k: nat, i: nat)
    requires i < |trace| - 1 && trace[i].Deadline? && trace[|trace| - 1].Deadline?
    requires DeadlinesOf(trace) == if deadlines == [] then [] else FirstDeadlines(deadlines, k)
    ensures trace[i].ts <= trace[|trace| - 1].ts
  {
    LastDeadline(trace, deadlines, k);
    MembersOf(trace[..|trace| - 1], i);
    FirstDeadlinesBefore(deadlines, k - 1, trace[i]);
    var j :| 0 <= j < k - 1 && trace[i] == Steps.Deadline(DueAt(deadlines, j), DeadlineTime(deadlines, j));
    DeadlinesAscend(deadlines, j, k - 1);
  }

  lemma InterleavedPrefix(trace: seq<Steps.Step>)
    requires Interleaved(trace) && trace != []
    ensures Interleaved(trace[..|trace| - 1])
  {
    assert forall i | 0 <= i < |trace| - 1 :: trace[..|trace| - 1][i] == trace[i];
  }

  lemma MergeBeforeEvent(trace: seq<Steps.Step>, events: seq<Steps.Step>, deadlines: seq<Deadline>, k: nat)
    requires Merges(trace, events, deadlines, k) && trace != [] && trace[|trace| - 1].Event?
    ensures events != [] && Merges(trace[..|trace| - 1], events[..|events| - 1], deadlines, k)
  {
    InterleavedPrefix(trace);
    EventLast(trace);
    assert events[..|events| - 1] == EventsOf(trace[..|trace| - 1]);
  }

  lemma MergeBeforeDeadline(trace: seq<Steps.Step>, events: seq<Steps.Step>, deadlines: seq<Deadline>, k: nat)
    requires Merges(trace, events, deadlines, k) && trace != [] && trace[|trace| - 1].Deadline?
    ensures k > 0 && Merges(trace[..|trace| - 1], events, deadlines, k - 1)
  {
    InterleavedPrefix(trace);
    LastDeadline(trace, deadlines, k);
    DeadlineLast(trace);
  }

  /** Without its last step, a merge is a merge of one event or one deadline less. */
  lemma MergeInit(trace: seq<Steps.Step>, events: seq<Steps.Step>, deadlines: seq<Deadline>, k: nat)
    returns (events': seq<Steps.Step>, k': nat)
    requires Merges(trace, events, deadlines, k) && TimesAscend(events) && trace != []
    ensures Merges(trace[..|trace| - 1], events', deadlines, k') && TimesAscend(events')
  {
    if trace[|trace| - 1].Event? {
      MergeBeforeEvent(trace, events, deadlines, k);
      AscendPrefix(events, |events| - 1);
      events', k' := events[..|events| - 1], k;
    } else {
      MergeBeforeDeadline(trace, events, deadlines, k);
      events', k' := events, k - 1;
    }
  }

  lemma NothingAfterLast(trace: seq<Steps.Step>, events: seq<Steps.Step>, deadlines: seq<Deadline>, k: nat, i: nat)
    requires Merges(trace, events, deadlines, k) && TimesAscend(events) && i < |trace| - 1
    ensures trace[i].ts <= trace[|trace| - 1].ts
  {
    if trace[i].Event? && trace[|trace| - 1].Event? {
      EventNotAfterLast(trace, events, i);
    } else if trace[i].Deadline? && trace[|trace| - 1].Deadline? {
      DeadlineNotAfterLast(trace, deadlines, k, i);
    }
  }

  /** No step is after the last one. */
  ghost predicate EndsLatest(trace: seq<Steps.Step>)
    requires trace != []
  {
    forall i | 0 <= i < |trace| - 1 :: trace[i].ts <= trace[|trace| - 1].ts
  }

  lemma LastIsLatest(trace: seq<Steps.Step>, events: seq<Steps.Step>, deadlines: seq<Deadline>, k: nat)
    requires Merges(trace, events, deadlines, k) && TimesAscend(events) && trace != []
    ensures EndsLatest(trace)
  {
    forall i | 0 <= i < |trace| - 1 ensures trace[i].ts <= trace[|trace| - 1].ts {
      NothingAfterLast(trace, events, deadlines, k, i);
    }
  }

  lemma AscendPrefix(events: seq<Steps.Step>, n: nat)
    requires TimesAscend(events) && n <= |events|
    ensures TimesAscend(events[..n])
  {
  }

  /** Times never decrease along a merge, so the evaluator's time assertion never fails. */
  lemma {:induction false} MergeTimesAscend(trace: seq<Steps.Step>, events: seq<Steps.Step>, deadlines: seq<Deadline>,
                                            k: nat)
    requires Merges(trace, events, deadlines, k) && TimesAscend(events)
    ensures TimesAscend(trace)
    decreases |trace|
  {
    if trace != [] {
      var n := |trace| - 1;
      var events', k' := MergeInit(trace, events, deadlines, k);
      MergeTimesAscend(trace[..n], events', deadlines, k');
      LastIsLatest(trace, events, deadlines, k);
      LastAscends(trace);
    }
  }

  lemma LastAscends(trace: seq<Steps.Step>)
    requires trace != [] && TimesAscend(trace[..|trace| - 1]) && EndsLatest(trace)
    ensures TimesAscend(trace)
  {
    assert forall i | 0 <= i < |trace| - 1 :: trace[..|trace| - 1][i] == trace[i];
  }

  /** Along a merge of events in time order, no evaluation fails the evaluator's time assertion. */
  lemma MergeNeverReversesTime(spec: Steps.Spec, exec: Steps.Executor, trace: seq<Steps.Step>, n: nat,
                               events: seq<Steps.Step>, deadlines: seq<Deadline>, k: nat)
    requires Merges(trace, events, deadlines, k) && TimesAscend(events) && n < |trace|
    requires Steps.RunAll(spec, exec, trace[..n]).Ok?
    ensures Steps.InOrder(Steps.RunAll(spec, exec, trace[..n]).value.last, trace[n].ts)
  {
    MergeTimesAscend(trace, events, deadlines, k);
    if n > 0 {
      assert trace[..n][n - 1] == trace[n - 1];
    }
  }

  // ---------- the controller's steps on the merge ----------

  lemma MergeDeadline(trace: seq<Steps.Step>, events: seq<Steps.Step>, deadlines: seq<Deadline>, k: nat)
    requires deadlines != [] && Merges(trace, events, deadlines, k)
    requires forall i | 0 <= i < |events| :: events[i].ts <= DeadlineTime(deadlines, k)
    ensures Merges(trace + [Steps.Deadline(DueAt(deadlines, k), DeadlineTime(deadlines, k))], events, deadlines, k + 1)
  {
    var d := Steps.Deadline(DueAt(deadlines, k), DeadlineTime(deadlines, k));
    var t := trace + [d];
    assert t[..|t| - 1] == trace;
    assert EventsOf(t) == EventsOf(trace) && DeadlinesOf(t) == DeadlinesOf(trace) + [d];
    forall i | 0 <= i < |trace| && trace[i].Event? ensures trace[i].ts <= DeadlineTime(deadlines, k) {
      MembersOf(trace, i);
    }
    DeadlineLastInterleaves(trace, d);
  }

  lemma DeadlineLastInterleaves(trace: seq<Steps.Step>, d: Steps.Step)
    requires Interleaved(trace) && d.Deadline?
    requires forall i | 0 <= i < |trace| && trace[i].Event? :: trace[i].ts <= d.ts
    ensures Interleaved(trace + [d])
  {
  }

  lemma MergeEvent(trace: seq<Steps.Step>, events: seq<Steps.Step>, deadlines: seq<Deadline>, k: nat, event: Steps.Step)
    requires event.Event? && Merges(trace, events, deadlines, k)
    requires deadlines != [] && k > 0 ==> DeadlineTime(deadlines, k - 1) < event.ts
    ensures Merges(trace + [event], events + [event], deadlines, k)
  {
    var t := trace + [event];
    assert t[..|t| - 1] == trace;
    forall i | 0 <= i < |trace| && trace[i].Deadline? ensures trace[i].ts < event.ts {
      MembersOf(trace, i);
      FirstDeadlinesBefore(deadlines, k, trace[i]);
      var j :| 0 <= j < k && trace[i] == Steps.Deadline(DueAt(deadlines, j), DeadlineTime(deadlines, j));
      DeadlinesAscend(deadlines, j, k - 1);
    }
  }

  lemma RunSnoc(spec: Steps.Spec, exec: Steps.Executor, trace: seq<Steps.Step>, step: Steps.Step)
    ensures Steps.RunAll(spec, exec, trace + [step]) ==
            (var st := Steps.RunAll(spec, exec, trace);
             if st.Panic? then Panic else Steps.RunStep(spec, exec, st.value, step))
  {
    assert (trace + [step])[..|trace + [step]| - 1] == trace;
  }

  /** The state between two work items. */
  ghost predicate Caught(trace: seq<Steps.Step>, events: seq<Steps.Step>, deadlines: seq<Deadline>, k: nat,
                         currentTime: Time) {
    && Merges(trace, events, deadlines, k) && PausedBefore(deadlines, k)
    && currentTime == TimeOfLast(events)
    && (deadlines != [] ==>
          currentTime <= DeadlineTime(deadlines, k) && (k > 0 ==> DeadlineTime(deadlines, k - 1) < currentTime))
  }

  lemma EventsBefore(events: seq<Steps.Step>, time: Time)
    requires NotAfter(events, time)
    ensures forall i | 0 <= i < |events| :: events[i].ts <= time
  {
  }

  /** Evaluates the due streams at the next deadline and advances to the one after it. */
  method ScheduleTimed(evaluator: EvaluatorClass.Evaluator, deadlines: seq<Deadline>, k: nat,
                       ghost trace: seq<Steps.Step>)
    returns (ok: bool, ghost next: seq<Steps.Step>)
    requires evaluator.Valid() && deadlines != []
    requires Steps.RunAll(evaluator.spec, evaluator.exec, trace) == Ok(evaluator.State())
    modifies evaluator, evaluator.inputs, evaluator.outputs
    ensures evaluator.Valid()
    ensures next == trace + [Steps.Deadline(DueAt(deadlines, k), DeadlineTime(deadlines, k))]
    ensures ok ==> Steps.RunAll(evaluator.spec, evaluator.exec, next) == Ok(evaluator.State())
    ensures ok ==> DeadlineTime(deadlines, k + 1) > DeadlineTime(deadlines, k)
    ensures ok ==> PauseAfter(deadlines, k) > 0
    ensures !ok ==> Steps.RunAll(evaluator.spec, evaluator.exec, next).Panic? || PauseAfter(deadlines, k) == 0
  {
    next := trace + [Steps.Deadline(DueAt(deadlines, k), DeadlineTime(deadlines, k))];
    RunSnoc(evaluator.spec, evaluator.exec, trace, next[|trace|]);
    ok := evaluator.EvalTimeDrivenOutputs(DueAt(deadlines, k), DeadlineTime(deadlines, k));
    if ok {
      var deadline := deadlines[k % |deadlines|];
      ok := deadline.pause > 0;
    }
  }

  /** The events so far are merged with the first `k` deadlines and evaluated, or the run has stopped. */
  ghost predicate Underway(spec: Steps.Spec, exec: Steps.Executor, st: Steps.State, ok: bool,
                           trace: seq<Steps.Step>, events: seq<Steps.Step>, deadlines: seq<Deadline>, k: nat,
                           end: Time)
  {
    if ok then Merges(trace, events, deadlines, k) && PausedBefore(deadlines, k)
        && Steps.RunAll(spec, exec, trace) == Ok(st)
    else Stops(spec, exec, trace, events, deadlines, end)
  }

  /** Evaluates the next deadline, which is not before any event so far. */
  method NextDeadline(evaluator: EvaluatorClass.Evaluator, deadlines: seq<Deadline>, k: nat,
                      ghost trace: seq<Steps.Step>, ghost events: seq<Steps.Step>, ghost end: Time)
    returns (ok: bool, ghost next: seq<Steps.Step>)
    requires evaluator.Valid() && deadlines != [] && NotAfter(events, DeadlineTime(deadlines, k))
    requires DeadlineTime(deadlines, k) <= end
    requires Underway(evaluator.spec, evaluator.exec, evaluator.State(), true, trace, events, deadlines, k, end)
    modifies evaluator, evaluator.inputs, evaluator.outputs
    ensures evaluator.Valid()
    ensures ok ==> DeadlineTime(deadlines, k + 1) > DeadlineTime(deadlines, k)
    ensures Underway(evaluator.spec, evaluator.exec, evaluator.State(), ok, next, events, deadlines, k + 1, end)
  {
    EventsBefore(events, DeadlineTime(deadlines, k));
    MergeDeadline(trace, events, deadlines, k);
    ok, next := ScheduleTimed(evaluator, deadlines, k, trace);
  }

  lemma BeforeEvent(events: seq<Steps.Step>, event: Steps.Step)
    requires TimesAscend(events + [event])
    ensures TimesAscend(events) && (events != [] ==> events[|events| - 1].ts <= event.ts)
  {
    assert forall i | 0 <= i < |events| :: events[i] == (events + [event])[i];
    if events != [] {
      assert (events + [event])[|events| - 1].ts <= (events + [event])[|events|].ts;
    }
  }

  lemma NextIsBefore(deadlines: seq<Deadline>, k: nat, currentTime: Time, ts: Time, events: seq<Steps.Step>)
    requires deadlines != [] && Before(deadlines, k, currentTime, ts) && ts > DeadlineTime(deadlines, k)
    requires NotAfter(events, currentTime)
    ensures NotAfter(events, DeadlineTime(deadlines, k))
    ensures DeadlineTime(deadlines, k + 1) > DeadlineTime(deadlines, k) ==> Before(deadlines, k + 1, currentTime, ts)
  {
  }

  /** Evaluates all deadlines strictly before `ts`. */
  method CatchUp(evaluator: EvaluatorClass.Evaluator, deadlines: seq<Deadline>, k: nat, ts: Time,
                 ghost currentTime: Time, ghost trace: seq<Steps.Step>, ghost events: seq<Steps.Step>, ghost end: Time)
    returns (ok: bool, k': nat, ghost trace': seq<Steps.Step>)
    requires evaluator.Valid() && NotAfter(events, currentTime) && Before(deadlines, k, currentTime, ts) && ts <= end
    requires Underway(evaluator.spec, evaluator.exec, evaluator.State(), true, trace, events, deadlines, k, end)
    modifies evaluator, evaluator.inputs, evaluator.outputs
    ensures evaluator.Valid()
    ensures Underway(evaluator.spec, evaluator.exec, evaluator.State(), ok, trace', events, deadlines, k', end)
    ensures ok ==> Before(deadlines, k', currentTime, ts) && (deadlines != [] ==> ts <= DeadlineTime(deadlines, k'))
  {
    k', trace', ok := k, trace, true;
    while ok && deadlines != [] && ts > DeadlineTime(deadlines, k')
      invariant evaluator.Valid()
      invariant Underway(evaluator.spec, evaluator.exec, evaluator.State(), ok, trace', events, deadlines, k', end)
      invariant ok ==> Before(deadlines, k', currentTime, ts)
      decreases ok, if deadlines == [] then 0 else ts - DeadlineTime(deadlines, k')
    {
      NextIsBefore(deadlines, k', currentTime, ts, events);
      ok, trace' := NextDeadline(evaluator, deadlines, k', trace', events, end);
      k' := k' + 1;
    }
  }

  /** Deadline `k` is not before the current time, and the deadlines before it are before `ts`. */
  ghost predicate Before(deadlines: seq<Deadline>, k: nat, currentTime: Time, ts: Time) {
    deadlines != [] ==> currentTime <= DeadlineTime(deadlines, k) && (k > 0 ==> DeadlineTime(deadlines, k - 1) < ts)
  }

  ghost predicate NotAfter(events: seq<Steps.Step>, time: Time) {
    TimesAscend(events) && (events != [] ==> events[|events| - 1].ts <= time)
  }

  ghost predicate MergesSome(trace: seq<Steps.Step>, events: seq<Steps.Step>, deadlines: seq<Deadline>) {
    exists k :: Merges(trace, events, deadlines, k)
  }

  /**
   The two ways in which a run over some events stops: a zero pause after a deadline up to the end,
   or a panic in the merge with some deadlines.
   */
  ghost predicate Stops(spec: Steps.Spec, exec: Steps.Executor, trace: seq<Steps.Step>, events: seq<Steps.Step>,
                        deadlines: seq<Deadline>, end: Time) {
    !AdvancesTo(deadlines, end) || (MergesSome(trace, events, deadlines) && Steps.RunAll(spec, exec, trace).Panic?)
  }

  /** The time of the last event. */
  function TimeOfLast(events: seq<Steps.Step>): Time {
    if events == [] then 0 else events[|events| - 1].ts
  }

  /** The run stops after some of the events. */
  ghost predicate StopsWithin(spec: Steps.Spec, exec: Steps.Executor, trace: seq<Steps.Step>, all: seq<Steps.Step>,
                              deadlines: seq<Deadline>) {
    exists m :: 0 <= m <= |all| && Stops(spec, exec, trace, all[..m], deadlines, TimeOfLast(all))
  }

  /** Catches up with all deadlines strictly before an event, and then evaluates the event. */
  method HandleEvent(evaluator: EvaluatorClass.Evaluator, deadlines: seq<Deadline>, k: nat, vals: seq<Value>, ts: Time,
                     ghost currentTime: Time, ghost trace: seq<Steps.Step>, ghost events: seq<Steps.Step>,
                     ghost end: Time)
    returns (ok: bool, k': nat, ghost trace': seq<Steps.Step>)
    requires evaluator.Valid() && TimesAscend(events + [Steps.Event(vals, ts)]) && ts <= end
    requires Caught(trace, events, deadlines, k, currentTime)
    requires Steps.RunAll(evaluator.spec, evaluator.exec, trace) == Ok(evaluator.State())
    modifies evaluator, evaluator.inputs, evaluator.outputs
    ensures evaluator.Valid()
    ensures ok ==> Caught(trace', events + [Steps.Event(vals, ts)], deadlines, k', ts)
    ensures ok ==> Steps.RunAll(evaluator.spec, evaluator.exec, trace') == Ok(evaluator.State())
    ensures !ok ==>
              || Stops(evaluator.spec, evaluator.exec, trace', events, deadlines, end)
              || Stops(evaluator.spec, evaluator.exec, trace', events + [Steps.Event(vals, ts)], deadlines, end)
  {
    BeforeEvent(events, Steps.Event(vals, ts));
    ok, k', trace' := CatchUp(evaluator, deadlines, k, ts, currentTime, trace, events, end);
    if ok {
      MergeEvent(trace', events, deadlines, k', Steps.Event(vals, ts));
      RunSnoc(evaluator.spec, evaluator.exec, trace', Steps.Event(vals, ts));
      trace' := trace' + [Steps.Event(vals, ts)];
      ok := evaluator.EvalEvent(vals, ts);
    }
  }

  /** At the end of the input, a deadline at the time of the last event is still evaluated. */
  method HandleEnd(evaluator: EvaluatorClass.Evaluator, deadlines: seq<Deadline>, k: nat, currentTime: Time,
                   ghost trace: seq<Steps.Step>, ghost events: seq<Steps.Step>, ghost end: Time)
    returns (ok: bool, k': nat, ghost trace': seq<Steps.Step>)
    requires evaluator.Valid() && TimesAscend(events) && currentTime <= end
    requires Caught(trace, events, deadlines, k, currentTime)
    requires Steps.RunAll(evaluator.spec, evaluator.exec, trace) == Ok(evaluator.State())
    modifies evaluator, evaluator.inputs, evaluator.outputs
    ensures evaluator.Valid()
    ensures ok ==> Merges(trace', events, deadlines, k') && AdvancesTo(deadlines, currentTime)
    ensures ok && deadlines != [] ==> CountsDeadlines(deadlines, k', currentTime)
    ensures ok ==> Steps.RunAll(evaluator.spec, evaluator.exec, trace') == Ok(evaluator.State())
    ensures !ok ==> Stops(evaluator.spec, evaluator.exec, trace', events, deadlines, end)
  {
    k', trace', ok := k, trace, true;
    CaughtNotAfter(trace, events, deadlines, k, currentTime);
    while ok && DeadlineAt(deadlines, k', currentTime)
      invariant evaluator.Valid()
      invariant Underway(evaluator.spec, evaluator.exec, evaluator.State(), ok, trace', events, deadlines, k', end)
      invariant ok ==> Reached(deadlines, k', currentTime)
      decreases ok, DeadlineAt(deadlines, k', currentTime)
    {
      EndNotAfter(events, deadlines, k', currentTime);
      ok, trace' := NextDeadline(evaluator, deadlines, k', trace', events, end);
      k' := k' + 1;
    }
    if ok {
      if deadlines != [] {
        AllCounted(deadlines, k', currentTime);
      }
      CountedAdvance(deadlines, k', currentTime);
    }
  }

  predicate DeadlineAt(deadlines: seq<Deadline>, k: nat, time: Time) {
    deadlines != [] && time == DeadlineTime(deadlines, k)
  }

  lemma CaughtNotAfter(trace: seq<Steps.Step>, events: seq<Steps.Step>, deadlines: seq<Deadline>, k: nat,
                       currentTime: Time)
    requires Caught(trace, events, deadlines, k, currentTime) && TimesAscend(events)
    ensures NotAfter(events, currentTime) && Reached(deadlines, k, currentTime)
  {
  }

  lemma EndNotAfter(events: seq<Steps.Step>, deadlines: seq<Deadline>, k: nat, currentTime: Time)
    requires NotAfter(events, currentTime) && DeadlineAt(deadlines, k, currentTime)
    ensures NotAfter(events, DeadlineTime(deadlines, k))
  {
  }

  lemma AllCounted(deadlines: seq<Deadline>, k: nat, currentTime: Time)
    requires deadlines != [] && Reached(deadlines, k, currentTime) && !DeadlineAt(deadlines, k, currentTime)
    ensures CountsDeadlines(deadlines, k, currentTime)
  {
  }

  /** Every deadline before deadline `k` is at or before the time, and deadline `k` is not before it. */
  ghost predicate Reached(deadlines: seq<Deadline>, k: nat, time: Time) {
    deadlines != [] ==> time <= DeadlineTime(deadlines, k) && (k > 0 ==> DeadlineTime(deadlines, k - 1) <= time)
  }

  /** The events of a queue up to its end marker. */
  function EventsUpToEnd(items: seq<WorkItem>): seq<Steps.Step> {
    if items == [] || items[0].EndItem? then []
        else [Steps.Event(items[0].vals, items[0].ts)] + EventsUpToEnd(items[1..])
  }

  /** The outcome of a whole run: the events merged with exactly the deadlines up to the last event. */
  ghost predicate FullMerge(trace: seq<Steps.Step>, events: seq<Steps.Step>, deadlines: seq<Deadline>) {
    && events != []
    && if deadlines == [] then Merges(trace, events, deadlines, 0)
       else exists k :: Merges(trace, events, deadlines, k) && CountsDeadlines(deadlines, k, events[|events| - 1].ts)
  }

  lemma {:induction false} DeadlineAmongFirst(deadlines: seq<Deadline>, k: nat, j: nat)
    requires deadlines != [] && j < k
    ensures |FirstDeadlines(deadlines, k)| == k
    ensures FirstDeadlines(deadlines, k)[j] == Steps.Deadline(DueAt(deadlines, j), DeadlineTime(deadlines, j))
  {
    if j < k - 1 {
      DeadlineAmongFirst(deadlines, k - 1, j);
    } else {
      FirstCount(deadlines, k - 1);
    }
  }

  lemma {:induction false} FirstCount(deadlines: seq<Deadline>, k: nat)
    requires deadlines != []
    ensures |FirstDeadlines(deadlines, k)| == k
  {
    if k > 0 {
      FirstCount(deadlines, k - 1);
    }
  }

  /** The step is deadline `j` of the replay. */
  predicate IsDeadline(step: Steps.Step, deadlines: seq<Deadline>, j: nat)
    requires deadlines != []
  {
    step.Deadline? && step.due == DueAt(deadlines, j) && step.ts == DeadlineTime(deadlines, j)
  }

  /** A deadline is counted exactly if it is not after the time. */
  lemma CountedIff(deadlines: seq<Deadline>, k: nat, time: Time, j: nat)
    requires deadlines != [] && CountsDeadlines(deadlines, k, time)
    ensures j < k <==> DeadlineTime(deadlines, j) <= time
  {
    if j < k {
      DeadlinesAscend(deadlines, j, k - 1);
    } else {
      DeadlinesAscend(deadlines, k, j);
    }
  }

  lemma {:induction false} DistinctKinds(trace: seq<Steps.Step>, a: Steps.Step)
    ensures a in EventsOf(trace) ==> a.Event? && a in trace
    ensures a in DeadlinesOf(trace) ==> a.Deadline? && a in trace
  {
    if trace != [] {
      DistinctKinds(trace[..|trace| - 1], a);
    }
  }

  /** The events of a trace are those of its parts, in their order; and so are the deadlines. */
  lemma {:induction false} KindsOfParts(a: seq<Steps.Step>, b: seq<Steps.Step>, step: Steps.Step)
    ensures EventsOf(a + b) == EventsOf(a) + EventsOf(b) && DeadlinesOf(a + b) == DeadlinesOf(a) + DeadlinesOf(b)
    ensures EventsOf([step]) == (if step.Event? then [step] else [])
    ensures DeadlinesOf([step]) == if step.Deadline? then [step] else []
  {
    if b == [] {
      assert a + b == a;
    } else {
      var n := |b| - 1;
      KindsOfParts(a, b[..n], step);
      InitOfSum(a, b);
      assert EventsOf(a + b) == EventsOf(a + b[..n]) + (if b[n].Event? then [b[n]] else []);
      assert DeadlinesOf(a + b) == DeadlinesOf(a + b[..n]) + (if b[n].Deadline? then [b[n]] else []);
    }
  }

  lemma InitOfSum(a: seq<Steps.Step>, b: seq<Steps.Step>)
    requires b != []
    ensures (a + b)[..|a + b| - 1] == a + b[..|b| - 1] && (a + b)[|a + b| - 1] == b[|b| - 1]
  {
  }

  /** The deadlines of a full merge are in order those that are not after the last event. */
  lemma DeadlineOfMerge(trace: seq<Steps.Step>, events: seq<Steps.Step>, deadlines: seq<Deadline>, j: nat)
    requires FullMerge(trace, events, deadlines) && deadlines != []
    ensures j < |DeadlinesOf(trace)| <==> DeadlineTime(deadlines, j) <= events[|events| - 1].ts
    ensures j < |DeadlinesOf(trace)| ==> IsDeadline(DeadlinesOf(trace)[j], deadlines, j)
  {
    var k: nat :| Merges(trace, events, deadlines, k) && CountsDeadlines(deadlines, k, events[|events| - 1].ts);
    CountedIff(deadlines, k, events[|events| - 1].ts, j);
    FirstCount(deadlines, k);
    if j < k {
      DeadlineAmongFirst(deadlines, k, j);
    }
  }

  /**
   What a full merge is: the events in their order, and exactly the deadlines that are not after the
   last event, in theirs; its times ascend, and at one time the events come first.
   */
  lemma FullMergeExact(trace: seq<Steps.Step>, events: seq<Steps.Step>, deadlines: seq<Deadline>)
    requires FullMerge(trace, events, deadlines) && TimesAscend(events)
    ensures EventsOf(trace) == events && (deadlines == [] ==> trace == events)
    ensures deadlines != [] ==> forall j: nat ::
              && (j < |DeadlinesOf(trace)| <==> DeadlineTime(deadlines, j) <= events[|events| - 1].ts)
              && (j < |DeadlinesOf(trace)| ==> IsDeadline(DeadlinesOf(trace)[j], deadlines, j))
    ensures forall i, j | 0 <= i < j < |trace| ::
              trace[i].ts <= trace[j].ts && (trace[i].ts == trace[j].ts && trace[i].Deadline? ==> trace[j].Deadline?)
  {
    if deadlines == [] {
      EventsAlone(trace);
    } else {
      forall j: nat
        ensures j < |DeadlinesOf(trace)| <==> DeadlineTime(deadlines, j) <= events[|events| - 1].ts
        ensures j < |DeadlinesOf(trace)| ==> IsDeadline(DeadlinesOf(trace)[j], deadlines, j)
      {
        DeadlineOfMerge(trace, events, deadlines, j);
      }
    }
    var k :| Merges(trace, events, deadlines, k);
    MergeTimesAscend(trace, events, deadlines, k);
  }

  lemma {:induction false} EventsAlone(trace: seq<Steps.Step>)
    requires DeadlinesOf(trace) == []
    ensures EventsOf(trace) == trace
  {
    if trace != [] {
      EventsAlone(trace[..|trace| - 1]);
    }
  }

  lemma DeadlineBeforeLast(t: seq<Steps.Step>, d: Steps.Step)
    requires Interleaved(t) && t != [] && t[|t| - 1].Event? && d in DeadlinesOf(t)
    ensures d.ts < t[|t| - 1].ts
  {
    DistinctKinds(t, d);
    var i :| 0 <= i < |t| && t[i] == d;
  }

  lemma EventBeforeLast(t: seq<Steps.Step>, e: Steps.Step)
    requires Interleaved(t) && t != [] && t[|t| - 1].Deadline? && e in EventsOf(t)
    ensures e.ts <= t[|t| - 1].ts
  {
    DistinctKinds(t, e);
    var i :| 0 <= i < |t| && t[i] == e;
  }

  /** Two interleavings of the same steps end in a step of the same kind. */
  lemma LastKindsAgree(t: seq<Steps.Step>, u: seq<Steps.Step>)
    requires EventsOf(t) == EventsOf(u) && DeadlinesOf(t) == DeadlinesOf(u)
    requires Interleaved(t) && Interleaved(u) && t != [] && u != []
    requires t[|t| - 1].Deadline?
    ensures u[|u| - 1].Deadline?
  {
    MembersOf(t, |t| - 1);
    MembersOf(u, |u| - 1);
    if u[|u| - 1].Event? {
      EventBeforeLast(t, u[|u| - 1]);
      DeadlineBeforeLast(u, t[|t| - 1]);
    }
  }

  lemma Unsnoc<T>(s: seq<T>, x: T, r: seq<T>, y: T)
    requires s + [x] == r + [y]
    ensures s == r && x == y
  {
    assert (s + [x])[..|s|] == s && (r + [y])[..|r|] == r;
    assert (s + [x])[|s|] == x && (r + [y])[|r|] == y;
  }

  lemma EventLast(t: seq<Steps.Step>)
    requires t != [] && t[|t| - 1].Event?
    ensures EventsOf(t) == EventsOf(t[..|t| - 1]) + [t[|t| - 1]] && DeadlinesOf(t) == DeadlinesOf(t[..|t| - 1])
  {
  }

  lemma DeadlineLast(t: seq<Steps.Step>)
    requires t != [] && t[|t| - 1].Deadline?
    ensures DeadlinesOf(t) == DeadlinesOf(t[..|t| - 1]) + [t[|t| - 1]] && EventsOf(t) == EventsOf(t[..|t| - 1])
  {
  }

  lemma LastEventsAgree(t: seq<Steps.Step>, u: seq<Steps.Step>)
    requires EventsOf(t) == EventsOf(u) && t != [] && u != [] && t[|t| - 1].Event? && u[|u| - 1].Event?
    ensures t[|t| - 1] == u[|u| - 1] && EventsOf(t[..|t| - 1]) == EventsOf(u[..|u| - 1])
  {
    EventLast(t);
    EventLast(u);
    Unsnoc(EventsOf(t[..|t| - 1]), t[|t| - 1], EventsOf(u[..|u| - 1]), u[|u| - 1]);
  }

  lemma LastDeadlinesAgree(t: seq<Steps.Step>, u: seq<Steps.Step>)
    requires DeadlinesOf(t) == DeadlinesOf(u) && t != [] && u != [] && t[|t| - 1].Deadline? && u[|u| - 1].Deadline?
    ensures t[|t| - 1] == u[|u| - 1] && DeadlinesOf(t[..|t| - 1]) == DeadlinesOf(u[..|u| - 1])
  {
    DeadlineLast(t);
    DeadlineLast(u);
    Unsnoc(DeadlinesOf(t[..|t| - 1]), t[|t| - 1], DeadlinesOf(u[..|u| - 1]), u[|u| - 1]);
  }

  /** Steps of one kind at the end of both traces are the same, and the traces before them still agree. */
  lemma LastStepsAgree(t: seq<Steps.Step>, u: seq<Steps.Step>)
    requires EventsOf(t) == EventsOf(u) && DeadlinesOf(t) == DeadlinesOf(u) && t != [] && u != []
    requires t[|t| - 1].Deadline? <==> u[|u| - 1].Deadline?
    ensures t[|t| - 1] == u[|u| - 1]
    ensures EventsOf(t[..|t| - 1]) == EventsOf(u[..|u| - 1]) && DeadlinesOf(t[..|t| - 1]) == DeadlinesOf(u[..|u| - 1])
  {
    if t[|t| - 1].Deadline? {
      LastDeadlinesAgree(t, u);
      DeadlineLast(t);
      DeadlineLast(u);
    } else {
      LastEventsAgree(t, u);
      EventLast(t);
      EventLast(u);
    }
  }

  lemma Empty(t: seq<Steps.Step>)
    requires EventsOf(t) == [] && DeadlinesOf(t) == []
    ensures t == []
  {
    if t != [] {
      MembersOf(t, 0);
    }
  }

  lemma EqualFromLast<T>(t: seq<T>, u: seq<T>)
    requires t != [] && u != [] && t[..|t| - 1] == u[..|u| - 1] && t[|t| - 1] == u[|u| - 1]
    ensures t == u
  {
    assert t == t[..|t| - 1] + [t[|t| - 1]];
    assert u == u[..|u| - 1] + [u[|u| - 1]];
  }

  /** There is at most one interleaving of given events and deadlines. */
  lemma {:induction false} InterleavingUnique(t: seq<Steps.Step>, u: seq<Steps.Step>)
    requires EventsOf(t) == EventsOf(u) && DeadlinesOf(t) == DeadlinesOf(u)
    requires Interleaved(t) && Interleaved(u)
    ensures t == u
    decreases |t|
  {
    if t == [] {
      Empty(u);
    } else if u == [] {
      Empty(t);
    } else {
      if t[|t| - 1].Deadline? {
        LastKindsAgree(t, u);
      } else if u[|u| - 1].Deadline? {
        LastKindsAgree(u, t);
      }
      LastStepsAgree(t, u);
      InterleavedPrefix(t);
      InterleavedPrefix(u);
      InterleavingUnique(t[..|t| - 1], u[..|u| - 1]);
      EqualFromLast(t, u);
    }
  }

  datatype Status = Continue | Finished | Stopped

  lemma NextEvent(all: seq<Steps.Step>, events: seq<Steps.Step>, item: WorkItem, rest: seq<WorkItem>)
    requires item.EventItem? && all == events + EventsUpToEnd([item] + rest) && TimesAscend(all)
    ensures var event := Steps.Event(item.vals, item.ts);
            && all == (events + [event]) + EventsUpToEnd(rest) && TimesAscend(events + [event])
            && item.ts <= TimeOfLast(all)
  {
    var event := Steps.Event(item.vals, item.ts);
    assert ([item] + rest)[1..] == rest;
    assert events + ([event] + EventsUpToEnd(rest)) == (events + [event]) + EventsUpToEnd(rest);
    assert forall j | 0 <= j <= |events| :: (events + [event])[j] == all[j];
    assert all[|events|] == event && all[|events|].ts <= all[|all| - 1].ts;
  }

  /** Where a run stands: all items so far handled, ended after the end marker, or stopped by a panic. */
  ghost predicate Standing(spec: Steps.Spec, exec: Steps.Executor, st: Steps.State, status: Status,
                           trace: seq<Steps.Step>, events: seq<Steps.Step>,
                           deadlines: seq<Deadline>, k: nat, time: Time, rest: seq<WorkItem>, all: seq<Steps.Step>)
  {
    match status
    case Continue =>
      Caught(trace, events, deadlines, k, time) && all == events + EventsUpToEnd(rest) && EndItem in rest
          && Steps.RunAll(spec, exec, trace) == Ok(st)
    case Finished =>
      && Merges(trace, all, deadlines, k) && Steps.RunAll(spec, exec, trace) == Ok(st)
      && (deadlines != [] ==> CountsDeadlines(deadlines, k, TimeOfLast(all))) && AdvancesTo(deadlines, TimeOfLast(all))
    case Stopped => StopsWithin(spec, exec, trace, all, deadlines)
  }

  /** Handles one work item. */
  method HandleItem(evaluator: EvaluatorClass.Evaluator, deadlines: seq<Deadline>, k: nat, time: Time, item: WorkItem,
                    ghost trace: seq<Steps.Step>, ghost events: seq<Steps.Step>, ghost rest: seq<WorkItem>,
                    ghost all: seq<Steps.Step>)
    returns (status: Status, k': nat, time': Time, ghost trace': seq<Steps.Step>, ghost events': seq<Steps.Step>)
    requires evaluator.Valid() && TimesAscend(all)
    requires Standing(evaluator.spec, evaluator.exec, evaluator.State(), Continue, trace, events, deadlines, k, time,
                      [item] + rest, all)
    modifies evaluator, evaluator.inputs, evaluator.outputs
    ensures evaluator.Valid()
    ensures Standing(evaluator.spec, evaluator.exec, evaluator.State(), status, trace', events', deadlines, k', time',
                     rest, all)
  {
    var ok;
    time', events' := time, events;
    if item.EndItem? {
      assert all == events && all[..|all|] == events;
      ok, k', trace' := HandleEnd(evaluator, deadlines, k, time, trace, events, TimeOfLast(all));
      status := if ok then Finished else Stopped;
    } else {
      NextEvent(all, events, item, rest);
      ok, k', trace' :=
        HandleEvent(evaluator, deadlines, k, item.vals, item.ts, time, trace, events, TimeOfLast(all));
      time' := item.ts;
      events' := events + [Steps.Event(item.vals, item.ts)];
      assert all[..|events|] == events && all[..|events'|] == events';
      status := if ok then Continue else Stopped;
    }
  }

  /** Handles the items of one batch in turn, up to the end marker. */
  method HandleBatch(evaluator: EvaluatorClass.Evaluator, deadlines: seq<Deadline>, k: nat, time: Time,
                     batch: seq<WorkItem>,
                     ghost trace: seq<Steps.Step>, ghost events: seq<Steps.Step>, ghost later: seq<WorkItem>,
                     ghost all: seq<Steps.Step>)
    returns (status: Status, k': nat, time': Time, ghost trace': seq<Steps.Step>, ghost events': seq<Steps.Step>)
    requires evaluator.Valid() && TimesAscend(all)
    requires Standing(evaluator.spec, evaluator.exec, evaluator.State(), Continue, trace, events, deadlines, k, time,
                      batch + later, all)
    modifies evaluator, evaluator.inputs, evaluator.outputs
    ensures evaluator.Valid()
    ensures Standing(evaluator.spec, evaluator.exec, evaluator.State(), status, trace', events', deadlines, k', time',
                     later, all)
  {
    k', time', trace', events', status := k, time, trace, events, Continue;
    var i := 0;
    while i < |batch| && status.Continue?
      invariant i <= |batch| && evaluator.Valid()
      invariant Standing(evaluator.spec, evaluator.exec, evaluator.State(), status, trace', events', deadlines, k',
                         time', batch[i..] + later, all)
    {
      RestOfBatch(batch, i, later);
      status, k', time', trace', events' :=
        HandleItem(evaluator, deadlines, k', time', batch[i], trace', events', batch[i + 1..] + later, all);
      i := i + 1;
    }
    RestOfBatch(batch, i, later);
  }

  lemma RestOfBatch(batch: seq<WorkItem>, i: nat, later: seq<WorkItem>)
    requires i <= |batch|
    ensures if i < |batch| then batch[i..] + later == [batch[i]] + (batch[i + 1..] + later)
            else batch[i..] + later == later
  {
    if i < |batch| {
      assert batch[i..] == [batch[i]] + batch[i + 1..];
    } else {
      assert batch[i..] == [];
    }
  }

  lemma RestOfQueues(queues: seq<seq<WorkItem>>, q: nat)
    requires q <= |queues|
    ensures Flatten(queues[q..]) == if q < |queues| then queues[q] + Flatten(queues[q + 1..]) else []
  {
    if q < |queues| {
      assert queues[q..][0] == queues[q] && queues[q..][1..] == queues[q + 1..];
    }
  }

  /**
   The offline run. Unless a pause after a deadline up to the last event is zero, or an evaluation in
   the merge of some of the events with some deadlines panics, the evaluator ends in the state of the
   merge of all events with exactly the deadlines up to the last event. Without any event the start
   time is never received, which is a panic.
   */
  method EvaluateOffline(evaluator: EvaluatorClass.Evaluator, deadlines: seq<Deadline>, queues: seq<seq<WorkItem>>)
    returns (ok: bool, ghost trace: seq<Steps.Step>)
    requires evaluator.Valid() && evaluator.State() == Steps.InitialState(evaluator.spec)
    requires TimesAscend(EventsUpToEnd(Flatten(queues))) && EndItem in Flatten(queues)
    modifies evaluator, evaluator.inputs, evaluator.outputs
    ensures evaluator.Valid()
    ensures ok ==> FullMerge(trace, EventsUpToEnd(Flatten(queues)), deadlines)
    ensures ok ==> AdvancesTo(deadlines, TimeOfLast(EventsUpToEnd(Flatten(queues))))
    ensures ok ==> Steps.RunAll(evaluator.spec, evaluator.exec, trace) == Ok(evaluator.State())
    ensures !ok ==>
              || EventsUpToEnd(Flatten(queues)) == []
              || StopsWithin(evaluator.spec, evaluator.exec, trace, EventsUpToEnd(Flatten(queues)), deadlines)
  {
    ghost var all := EventsUpToEnd(Flatten(queues));
    ghost var events: seq<Steps.Step> := [];
    trace := [];
    ok := HasEvents(queues);
    if ok {
      var k: nat, time: Time, status := 0, 0, Continue;
      var q := 0;
      assert queues[0..] == queues;
      while q < |queues| && status.Continue?
        invariant q <= |queues| && evaluator.Valid()
        invariant Standing(evaluator.spec, evaluator.exec, evaluator.State(), status, trace, events, deadlines, k,
                           time, Flatten(queues[q..]), all)
      {
        RestOfQueues(queues, q);
        status, k, time, trace, events :=
          HandleBatch(evaluator, deadlines, k, time, queues[q], trace, events, Flatten(queues[q + 1..]), all);
        q := q + 1;
      }
      RestOfQueues(queues, q);
      ok := status.Finished?;
      StandingAtEnd(evaluator.spec, evaluator.exec, evaluator.State(), status, trace, events, deadlines, k, time,
                    Flatten(queues[q..]), all);
    }
  }

  /** When all items are handled the run has either finished with a full merge, or stopped. */
  lemma StandingAtEnd(spec: Steps.Spec, exec: Steps.Executor, st: Steps.State, status: Status, trace: seq<Steps.Step>,
                      events: seq<Steps.Step>,
                      deadlines: seq<Deadline>, k: nat, time: Time, rest: seq<WorkItem>, all: seq<Steps.Step>)
    requires Standing(spec, exec, st, status, trace, events, deadlines, k, time, rest, all)
    requires all != [] && (rest == [] || !status.Continue?)
    ensures status.Finished? ==> FullMerge(trace, all, deadlines) && Steps.RunAll(spec, exec, trace) == Ok(st)
    ensures status.Finished? ==> AdvancesTo(deadlines, TimeOfLast(all))
    ensures !status.Finished? ==> StopsWithin(spec, exec, trace, all, deadlines)
  {
  }

  /** Whether the first work item is an event. */
  method HasEvents(queues: seq<seq<WorkItem>>) returns (b: bool)
    ensures b <==> EventsUpToEnd(Flatten(queues)) != []
  {
    for q := 0 to |queues|
      invariant Flatten(queues) == Flatten(queues[q..])
    {
      assert queues[q..][0] == queues[q] && queues[q..][1..] == queues[q + 1..];
      if queues[q] != [] {
        return queues[q][0].EventItem?;
      }
      assert queues[q] + Flatten(queues[q + 1..]) == Flatten(queues[q + 1..]);
    }
    assert queues[|queues|..] == [];
    return false;
  }

  // ---------- small merges ----------

  lemma {:induction false} OnlyDeadlines(deadlines: seq<Deadline>, k: nat)
    requires deadlines != []
    ensures EventsOf(FirstDeadlines(deadlines, k)) == []
    ensures DeadlinesOf(FirstDeadlines(deadlines, k)) == FirstDeadlines(deadlines, k)
    ensures |FirstDeadlines(deadlines, k)| == k && Interleaved(FirstDeadlines(deadlines, k))
  {
    if k > 0 {
      var before := FirstDeadlines(deadlines, k - 1);
      var d := Steps.Deadline(DueAt(deadlines, k - 1), DeadlineTime(deadlines, k - 1));
      OnlyDeadlines(deadlines, k - 1);
      assert (before + [d])[..k - 1] == before;
      NoEvents(before, d);
    }
  }

  lemma NoEvents(trace: seq<Steps.Step>, d: Steps.Step)
    requires EventsOf(trace) == [] && d.Deadline?
    ensures Interleaved(trace + [d])
  {
    forall i | 0 <= i < |trace| ensures trace[i].Deadline? {
      MembersOf(trace, i);
    }
  }

  lemma LastOfFirst(deadlines: seq<Deadline>, k: nat)
    requires deadlines != []
    ensures |FirstDeadlines(deadlines, k + 1)| == k + 1
    ensures FirstDeadlines(deadlines, k + 1)[k] == Steps.Deadline(DueAt(deadlines, k), DeadlineTime(deadlines, k))
  {
    OnlyDeadlines(deadlines, k);
  }

  /** The deadlines alone are a merge in which every deadline of the cycle occurs. */
  lemma DeadlinesMerge(deadlines: seq<Deadline>, m: nat) returns (trace: seq<Steps.Step>, n: nat)
    requires m < |deadlines|
    ensures MergesSome(trace, [], deadlines) && n < |trace| && trace[n].Deadline? && trace[n].due == deadlines[m].due
  {
    n := m + 1;
    trace := FirstDeadlines(deadlines, n + 1);
    OnlyDeadlines(deadlines, n + 1);
    LastOfFirst(deadlines, n);
    DueInCycle(deadlines, m);
    assert Merges(trace, [], deadlines, n + 1);
  }

  lemma DueInCycle(deadlines: seq<Deadline>, m: nat)
    requires m < |deadlines|
    ensures DueAt(deadlines, m + 1) == deadlines[m].due
  {
  }

  /** One event alone is a merge. */
  lemma EventMerges(deadlines: seq<Deadline>, event: Steps.Step)
    requires event.Event?
    ensures MergesSome([event], [event], deadlines)
  {
    assert [event][..0] == [];
    assert EventsOf([event]) == EventsOf([]) + [event];
    assert DeadlinesOf([event]) == DeadlinesOf([]) + [];
    assert Merges([event], [event], deadlines, 0);
  }

  /** Events alone are a merge with no deadline. */
  lemma {:induction false} OnlyEvents(events: seq<Steps.Step>)
    requires forall i | 0 <= i < |events| :: events[i].Event?
    ensures EventsOf(events) == events && DeadlinesOf(events) == []
  {
    if events != [] {
      OnlyEvents(events[..|events| - 1]);
      EventLast(events);
      assert events == events[..|events| - 1] + [events[|events| - 1]];
    }
  }

  /** If all events are at the start, the only full merge is that with the deadline at the start. */
  lemma StartMerge(trace: seq<Steps.Step>, events: seq<Steps.Step>, deadlines: seq<Deadline>)
    requires FullMerge(trace, events, deadlines) && deadlines != [] && PositivePauses(deadlines)
    requires forall i | 0 <= i < |events| :: events[i].Event? && events[i].ts == 0
    ensures trace == events + [Steps.Deadline(DueAt(deadlines, 0), 0)]
  {
    var k :| Merges(trace, events, deadlines, k) && CountsDeadlines(deadlines, k, 0);
    OneAtStart(deadlines);
    CountUnique(deadlines, k, 1, 0);
    OnlyEvents(events);
    assert Merges(events, events, deadlines, 0);
    MergeDeadline(events, events, deadlines, 0);
    InterleavingUnique(trace, events + [Steps.Deadline(DueAt(deadlines, 0), DeadlineTime(deadlines, 0))]);
  }

  lemma OneAtStart(deadlines: seq<Deadline>)
    requires deadlines != [] && PositivePauses(deadlines)
    ensures CountsDeadlines(deadlines, 1, 0) && DeadlineTime(deadlines, 0) == 0
  {
    PauseInCycle(deadlines, 0);
    assert DeadlineTime(deadlines, 1) == DeadlineTime(deadlines, 0) + PauseAfter(deadlines, 0);
  }
}
