/** A program that passes every check and never runs: an output at two gigahertz. */
module TwoGigahertz {
  import opened Values
  import opened Sequences
  import opened Graphs
  import opened Rationals
  import opened Clocks
  import opened Lowering
  import opened Pipeline
  import opened Offline
  import opened Controller
  import opened ScheduleCycles
  import D = Dependencies
  import E = Expressions
  import FreshAccesses
  import M = Evaluator
  import Schedules
  import OneFrequency
  import ZeroPauses

  const FREQUENCY: nat := 2_000_000_000

  /** The only output is always true, with a period of half a nanosecond. */
  function Fast(): Program {
    Program(0, [Output(E.LoadConstant(E.BoolC(true)), RealTime(Rat(FREQUENCY, 1)), false)], [])
  }

  lemma FastGraph()
    ensures DependencyGraph(Fast()) == Graph(1, [])
  {
    var p := Fast();
    assert D.EdgesOf(NamesOf(p), p.outputs[0].expr, 0) == [];
    assert EdgesUpTo(p, 1) == EdgesUpTo(p, 0) + [];
  }

  lemma NoLinks()
    ensures Acyclic(D.SameInstantLinks([]))
  {
    DescendingAcyclic(D.SameInstantLinks([]));
  }

  /** The program passes all checks. */
  lemma FastAccepted()
    ensures FreshAccesses.Accepted(Fast()) && Acyclic(D.SameInstantLinks(DependencyGraph(Fast()).edges))
  {
    FastGraph();
    NoLinks();
  }

  lemma FastPeriod()
    ensures ClocksInferred(Fast()) && |TimeDrivenOf(Fast(), 1)| == 1
    ensures !ZeroPauses.AtLeastOne(TimeDrivenOf(Fast(), 1)[0].period)
    ensures Reduced(TimeDrivenOf(Fast(), 1)[0].period) && Equal(TimeDrivenOf(Fast(), 1)[0].period, Rat(1, 2))
  {
    var p := Fast();
    assert TimeDrivenOf(p, 0) == [];
    assert TimeDrivenOf(p, 1)[0].period == PeriodOf(Rat(FREQUENCY, 1));
    NewRatReduced(NANOSECONDS, FREQUENCY);
  }

  /** Its first pause vanishes, so the replay of its schedule never gets past the start. */
  lemma FastNeverAdvances(table: map<nat, nat>, deadlines: seq<Schedules.Deadline>, time: Time)
    requires Checked(Fast()) && IsScheduleOf(Fast(), table, deadlines)
    ensures !AdvancesTo(deadlines, time)
  {
    FastPeriod();
    var streams := TimeDrivenOf(Fast(), 1);
    var g, n, gaps := ScheduleCycle(Fast(), table, deadlines);
    ZeroPauses.ShortPeriodVanishes(streams, g, n, LayerOf(Fast(), table), deadlines, gaps, 0);
    NeverAdvances(deadlines, time);
  }

  /** The hyper period, a nanosecond, has two steps. */
  lemma FastHasSchedule()
    requires ClocksInferred(Fast())
    ensures !TooManySteps(Fast())
  {
    var streams := TimeDrivenOf(Fast(), 1);
    FastPeriod();
    OneReduced();
    assert IsMultiple(ONE, streams[0].period, 2);
    forall g, h, n: nat | GcdOfPeriods(streams, g) && HyperPeriodOf(streams, h) && IsMultiple(h, g, n)
      ensures n < Schedules.MAX_STEPS
    {
      OneFrequency.StepsOfOne(streams, streams[0].period, ONE, 2, g, h, n);
    }
  }

  /** No run of it goes through: the controller's assertion on the first pause fails. */
  method RunFast(prims: E.Prims, events: seq<M.Step>)
    returns (ok: bool, spec: M.Spec, schedule: Option<seq<Schedules.Deadline>>)
    requires TimesAscend(events) && forall i | 0 <= i < |events| :: events[i].Event?
    ensures !ok && schedule.Just? && !AdvancesTo(schedule.value, TimeOfLast(events))
  {
    FastAccepted();
    FastHasSchedule();
    var table, st;
    ok, spec, table, st, schedule := RunOffline(Fast(), prims, events, 1);
    FastNeverAdvances(table, schedule.value, TimeOfLast(events));
  }
}
