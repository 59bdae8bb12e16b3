/** The whole pipeline: an offline run of a program, from its analyses and its schedule to its last event. */
module Offline {
  import opened Values
  import opened Sequences
  import opened Graphs
  import opened Lowering
  import opened BufferSizes
  import opened ScheduleCycles
  import opened Controller
  import opened Pipeline
  import opened Progress
  import opened AcceptedPrograms
  import D = Dependencies
  import E = Expressions
  import M = Evaluator
  import EvaluatorClass
  import FreshAccesses
  import Histories
  import Pruning
  import Schedules
  import ZeroPauses

  /** The specification and the schedule are those of the program. */
  ghost predicate Realises(p: Program, spec: M.Spec, table: map<nat, nat>, schedule: Option<seq<Schedules.Deadline>>)
    requires Checked(p)
  {
    && (exists requirements :: IsLowered(p, spec, table, requirements))
    && (if schedule.Just? then IsScheduleOf(p, table, schedule.value) else TooManySteps(p))
  }

  /**
   All events were merged with exactly the deadlines up to the last event, and the run ended in the
   newest values of a trace that satisfies the equations of `s`.
   */
  ghost predicate Ran(s: M.Spec, spec: M.Spec, prims: E.Prims, st: M.State, events: seq<M.Step>,
                      deadlines: seq<Schedules.Deadline>) {
    exists trace :: FullMerge(trace, events, deadlines) && Computes(s, spec, prims, st, trace)
  }

  /** For some merge of the first events with some deadlines the declarative equations have no solution. */
  ghost predicate Unsolvable(spec: M.Spec, prims: E.Prims, events: seq<M.Step>, deadlines: seq<Schedules.Deadline>) {
    exists trace, m :: 0 <= m <= |events| && MergesSome(trace, events[..m], deadlines)
        && !Histories.HasModel(spec, prims, trace)
  }

  /** How the controller has left a run. */
  ghost predicate Left(ok: bool, spec: M.Spec, prims: E.Prims, st: M.State, trace: seq<M.Step>, events: seq<M.Step>,
                       deadlines: seq<Schedules.Deadline>) {
    if ok then
      && FullMerge(trace, events, deadlines) && AdvancesTo(deadlines, TimeOfLast(events))
      && M.RunAll(spec, M.Interpreted(spec, prims), trace) == Ok(st)
    else events == [] || StopsWithin(spec, M.Interpreted(spec, prims), trace, events, deadlines)
  }

  // ---------- any program ----------

  /** What holds of every run: its result, and its failures if projections do no harm. */
  ghost predicate Outcome(ok: bool, p: Program, spec: M.Spec, table: map<nat, nat>, prims: E.Prims, st: M.State,
                          events: seq<M.Step>, deadlines: seq<Schedules.Deadline>) {
    if ok then
      && events != [] && AdvancesTo(deadlines, TimeOfLast(events))
      && Ran(Pruning.Pruned(spec), spec, prims, st, events, deadlines)
      && (TriggersReadNoWindow(p) ==> Ran(Declared(spec), spec, prims, st, events, deadlines))
    else
      DropsHarmless(p, spec, table) ==>
        events == [] || !AdvancesTo(deadlines, TimeOfLast(events)) || Unsolvable(spec, prims, events, deadlines)
  }

  lemma OfflineOutcome(p: Program, spec: M.Spec, table: map<nat, nat>, requirements: seq<StorageRequirement>,
                       deadlines: seq<Schedules.Deadline>, ok: bool, st: M.State, trace: seq<M.Step>,
                       events: seq<M.Step>, prims: E.Prims)
    requires Checked(p) && IsLowered(p, spec, table, requirements) && IsScheduleOf(p, table, deadlines)
    requires Left(ok, spec, prims, st, trace, events, deadlines)
    ensures Outcome(ok, p, spec, table, prims, st, events, deadlines)
  {
    var g := ScheduleIsExact(p, table, deadlines);
    if ok {
      assert MergesSome(trace, events, deadlines);
      PrunedRunComputes(p, spec, table, requirements, g, deadlines, trace, events, prims);
    } else if DropsHarmless(p, spec, table) && events != [] && AdvancesTo(deadlines, TimeOfLast(events)) {
      var m :| 0 <= m <= |events|
               && Stops(spec, M.Interpreted(spec, prims), trace, events[..m], deadlines, TimeOfLast(events));
      HarmlessIsAdmissible(p, spec, table, requirements);
      AdmissibleRunComputes(p, spec, table, g, deadlines, trace, events[..m], prims);
    }
  }

  // ---------- accepted programs ----------

  /** The program's types fit its operators, its windows and the events. */
  ghost predicate TypedFor(spec: M.Spec, prims: E.Prims, events: seq<M.Step>) {
    exists s :: TypedTotal(spec, prims, s) && TypedInputs(spec, s, events)
  }

  /** What the program says of the whole run has a solution. */
  ghost predicate Solvable(spec: M.Spec, prims: E.Prims, events: seq<M.Step>, deadlines: seq<Schedules.Deadline>) {
    exists trace :: FullMerge(trace, events, deadlines)
        && Histories.HasModel(Histories.Intended(spec), prims, trace)
  }

  /**
   What holds of an accepted program on typed events: its result is that of the equations as they are
   written, and if no synchronous read comes too early the run goes through exactly if there is an
   event and no pause up to the last event is zero.
   */
  ghost predicate AcceptedOutcome(ok: bool, p: Program, spec: M.Spec, prims: E.Prims, st: M.State,
                                  events: seq<M.Step>, deadlines: seq<Schedules.Deadline>) {
    && (ok ==> Ran(spec, spec, prims, st, events, deadlines) && Solvable(spec, prims, events, deadlines))
    && (ok && TriggersReadNoWindow(p) ==> Ran(Histories.Intended(spec), spec, prims, st, events, deadlines))
    && (InOrder(spec, deadlines) || NoSyncDropped(p) ==>
          (ok <==> events != [] && AdvancesTo(deadlines, TimeOfLast(events))))
  }

  lemma FirstEventsTyped(spec: M.Spec, s: E.Signature, events: seq<M.Step>, m: nat)
    requires TypedInputs(spec, s, events) && TimesAscend(events) && m <= |events|
    ensures TypedInputs(spec, s, events[..m]) && TimesAscend(events[..m])
  {
    forall i | 0 <= i < m ensures TypedInput(spec, s, events[..m][i]) {
      assert TypedInput(spec, s, events[i]);
    }
  }

  /** If no synchronous read comes too early, only a zero pause stops a run over typed events. */
  lemma NeverPanics(p: Program, spec: M.Spec, table: map<nat, nat>, requirements: seq<StorageRequirement>,
                    deadlines: seq<Schedules.Deadline>, trace: seq<M.Step>, events: seq<M.Step>, m: nat,
                    prims: E.Prims, s: E.Signature)
    requires FreshAccesses.Accepted(p) && IsLowered(p, spec, table, requirements)
    requires IsScheduleOf(p, table, deadlines) && TimesAscend(events) && m <= |events|
    requires MergesSome(trace, events[..m], deadlines) && TypedTotal(spec, prims, s) && TypedInputs(spec, s, events)
    requires InOrder(spec, deadlines) || NoSyncDropped(p)
    ensures M.RunAll(spec, M.Interpreted(spec, prims), trace).Ok?
  {
    FirstEventsTyped(spec, s, events, m);
    AcceptedProgramProgresses(p, spec, table, requirements, deadlines, trace, events[..m], prims, s);
  }

  lemma StoppedAccepted(p: Program, spec: M.Spec, table: map<nat, nat>, requirements: seq<StorageRequirement>,
                        deadlines: seq<Schedules.Deadline>, trace: seq<M.Step>, events: seq<M.Step>,
                        prims: E.Prims, s: E.Signature)
    requires FreshAccesses.Accepted(p) && IsLowered(p, spec, table, requirements)
    requires IsScheduleOf(p, table, deadlines) && TimesAscend(events)
    requires TypedTotal(spec, prims, s) && TypedInputs(spec, s, events)
    requires InOrder(spec, deadlines) || NoSyncDropped(p)
    requires StopsWithin(spec, M.Interpreted(spec, prims), trace, events, deadlines)
    ensures !AdvancesTo(deadlines, TimeOfLast(events))
  {
    var m :| 0 <= m <= |events|
             && Stops(spec, M.Interpreted(spec, prims), trace, events[..m], deadlines, TimeOfLast(events));
    if AdvancesTo(deadlines, TimeOfLast(events)) {
      NeverPanics(p, spec, table, requirements, deadlines, trace, events, m, prims, s);
    }
  }

  lemma FinishedAccepted(p: Program, spec: M.Spec, table: map<nat, nat>, requirements: seq<StorageRequirement>,
                         deadlines: seq<Schedules.Deadline>, st: M.State, trace: seq<M.Step>, events: seq<M.Step>,
                         prims: E.Prims, s: E.Signature)
    requires FreshAccesses.Accepted(p) && IsLowered(p, spec, table, requirements)
    requires IsScheduleOf(p, table, deadlines) && TimesAscend(events)
    requires TypedTotal(spec, prims, s) && TypedInputs(spec, s, events)
    requires Left(true, spec, prims, st, trace, events, deadlines)
    ensures Ran(spec, spec, prims, st, events, deadlines) && Solvable(spec, prims, events, deadlines)
    ensures TriggersReadNoWindow(p) ==> Ran(Histories.Intended(spec), spec, prims, st, events, deadlines)
  {
    assert MergesSome(trace, events, deadlines);
    AcceptedRunComputes(p, spec, table, requirements, deadlines, trace, events, prims, s);
    DeclaredSolvable(p, spec, table, requirements, deadlines, trace, events, prims, s);
  }

  lemma OfflineAccepted(p: Program, spec: M.Spec, table: map<nat, nat>, requirements: seq<StorageRequirement>,
                        deadlines: seq<Schedules.Deadline>, ok: bool, st: M.State, trace: seq<M.Step>,
                        events: seq<M.Step>, prims: E.Prims)
    requires FreshAccesses.Accepted(p) && IsLowered(p, spec, table, requirements)
    requires IsScheduleOf(p, table, deadlines) && TimesAscend(events) && TypedFor(spec, prims, events)
    requires Left(ok, spec, prims, st, trace, events, deadlines)
    ensures AcceptedOutcome(ok, p, spec, prims, st, events, deadlines)
  {
    var s :| TypedTotal(spec, prims, s) && TypedInputs(spec, s, events);
    if ok {
      FinishedAccepted(p, spec, table, requirements, deadlines, st, trace, events, prims, s);
    } else if events != [] && (InOrder(spec, deadlines) || NoSyncDropped(p)) {
      StoppedAccepted(p, spec, table, requirements, deadlines, trace, events, prims, s);
    }
  }

  // ---------- the run ----------

  /**
   The whole pipeline. For every program a run that goes through has merged the events with exactly
   the deadlines up to the last event, and has computed over unbounded histories what the program
   says, projections read as their entries; with the exception of windows in triggers. An accepted
   program with typed events and total operators, none of whose synchronous reads comes too early,
   goes through exactly if it has a schedule, there is an event, and no pause up to the last event is
   zero; and no pause is ever zero exactly if any two periods have a gcd of at least a nanosecond.
   */
  method RunOffline(p: Program, prims: E.Prims, events: seq<M.Step>, capacity: nat)
    returns (ok: bool, spec: M.Spec, table: map<nat, nat>, st: M.State, schedule: Option<seq<Schedules.Deadline>>)
    requires Checked(p) && Acyclic(D.SameInstantLinks(DependencyGraph(p).edges))
    requires capacity > 0 && TimesAscend(events) && forall i | 0 <= i < |events| :: events[i].Event?
    ensures Realises(p, spec, table, schedule) && (ok ==> schedule.Just?)
    ensures schedule.Just? ==> Outcome(ok, p, spec, table, prims, st, events, schedule.value)
    ensures schedule.Just? && FreshAccesses.Accepted(p) && TypedFor(spec, prims, events) ==>
              AcceptedOutcome(ok, p, spec, prims, st, events, schedule.value)
    ensures schedule.Just? ==>
              && ReducedPeriods(TimeDrivenOf(p, |p.outputs|))
              && ((forall time: Time :: AdvancesTo(schedule.value, time))
                  <==> ZeroPauses.PairsApart(TimeDrivenOf(p, |p.outputs|)))
  {
    var requirements;
    spec, table, requirements := Lower(p);
    st := M.InitialState(spec);
    schedule := ScheduleOf(p, table);
    ok := schedule.Just?;
    if ok {
      var queues := StartOffline(events, capacity);
      SentEvents(events);
      var evaluator := new EvaluatorClass.Evaluator(spec, M.Interpreted(spec, prims));
      ghost var trace;
      ok, trace := EvaluateOffline(evaluator, schedule.value, queues);
      st := evaluator.State();
      OfflineConcluded(p, spec, table, requirements, schedule.value, ok, st, trace, events, prims);
      PausesApart(p, table, schedule.value);
    }
  }

  lemma OfflineConcluded(p: Program, spec: M.Spec, table: map<nat, nat>, requirements: seq<StorageRequirement>,
                         deadlines: seq<Schedules.Deadline>, ok: bool, st: M.State, trace: seq<M.Step>,
                         events: seq<M.Step>, prims: E.Prims)
    requires Checked(p) && IsLowered(p, spec, table, requirements) && IsScheduleOf(p, table, deadlines)
    requires Left(ok, spec, prims, st, trace, events, deadlines) && TimesAscend(events)
    ensures Outcome(ok, p, spec, table, prims, st, events, deadlines)
    ensures FreshAccesses.Accepted(p) && TypedFor(spec, prims, events) ==>
              AcceptedOutcome(ok, p, spec, prims, st, events, deadlines)
  {
    OfflineOutcome(p, spec, table, requirements, deadlines, ok, st, trace, events, prims);
    if FreshAccesses.Accepted(p) && TypedFor(spec, prims, events) {
      OfflineAccepted(p, spec, table, requirements, deadlines, ok, st, trace, events, prims);
    }
  }

  /** The replay advances to every time exactly if any two periods have a gcd of at least a nanosecond. */
  lemma PausesApart(p: Program, table: map<nat, nat>, deadlines: seq<Schedules.Deadline>)
    requires Checked(p) && IsScheduleOf(p, table, deadlines)
    ensures ReducedPeriods(TimeDrivenOf(p, |p.outputs|))
    ensures (forall time: Time :: AdvancesTo(deadlines, time))
            <==> ZeroPauses.PairsApart(TimeDrivenOf(p, |p.outputs|))
  {
    AdvancesAlwaysIff(deadlines);
    PausesPositiveIffApart(p, table, deadlines);
  }

  lemma Regroup(events: seq<M.Step>, n: nat, tail: seq<M.Step>)
    requires 0 < n <= |events|
    ensures events[..n - 1] + ([events[n - 1]] + tail) == events[..n] + tail
  {
  }

  lemma FirstItem(item: WorkItem, rest: seq<WorkItem>, event: M.Step)
    requires item.EventItem? && event == M.Event(item.vals, item.ts)
    ensures EventsUpToEnd([item] + rest) == [event] + EventsUpToEnd(rest)
  {
    assert ([item] + rest)[1..] == rest;
  }

  lemma ItemsNext(events: seq<M.Step>, n: nat, rest: seq<WorkItem>)
    requires 0 < n <= |events| && events[n - 1].Event?
    ensures var item := EventItem(events[n - 1].vals, events[n - 1].ts);
            Items(events, n) + rest == Items(events, n - 1) + ([item] + rest)
  {
  }

  lemma {:induction false} ItemsGiveEvents(events: seq<M.Step>, n: nat, rest: seq<WorkItem>)
    requires n <= |events| && forall i | 0 <= i < |events| :: events[i].Event?
    ensures EventsUpToEnd(Items(events, n) + rest) == events[..n] + EventsUpToEnd(rest)
  {
    if n == 0 {
      assert Items(events, 0) + rest == rest;
    } else {
      var item := EventItem(events[n - 1].vals, events[n - 1].ts);
      ItemsGiveEvents(events, n - 1, [item] + rest);
      ItemsNext(events, n, rest);
      FirstItem(item, rest, events[n - 1]);
      Regroup(events, n, EventsUpToEnd(rest));
    }
  }

  lemma SentEvents(events: seq<M.Step>)
    requires forall i | 0 <= i < |events| :: events[i].Event?
    ensures EventsUpToEnd(Items(events, |events|) + [EndItem]) == events
  {
    ItemsGiveEvents(events, |events|, [EndItem]);
    assert events[..|events|] == events;
  }
}
