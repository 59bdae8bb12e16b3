/**
 The activation condition that is inferred for an unannotated stream: the conjunction of the clocks it
 accesses, simplified. Which of them the evaluator cannot evaluate.
 */
module InferredClocks {
  import opened Sequences
  import opened Values
  import opened Expressions
  import opened Activations
  import opened Clocks
  import N = NormalizedClocks

  type Condition = Activation<StreamRef>

  /** Inference folds the conjunction over the accessed clocks; a stream that accesses none is always active. */
  function InferredActivation(acs: seq<Condition>): Condition {
    if acs == [] then True else Conjoin(InferredActivation(acs[..|acs| - 1]), acs[|acs| - 1])
  }

  /** Conditions over inputs, except that `True` may be a member of a conjunction. */
  predicate Clean(ac: Condition) {
    forall m | m in Members(ac) :: m.True? || OverInputs(m)
  }

  predicate HidesAt(acs: seq<Condition>, j: nat)
    requires j < |acs|
  {
    || (acs[j].Conjunction? && True in acs[j].args)
    || (acs[j].True? && exists i :: 0 <= i < j && !acs[i].True?)
  }

  /** An always-active clock is accessed after another clock, or was hidden in a conjunction before. */
  predicate HidesTrue(acs: seq<Condition>) {
    exists j :: 0 <= j < |acs| && HidesAt(acs, j)
  }

  predicate HasTrueMember(ac: Condition) {
    ac.Conjunction? && True in ac.args
  }

  ghost predicate AllHold(acs: seq<Condition>, inputs: set<nat>) {
    forall i | 0 <= i < |acs| :: Holds(acs[i], LiveInputs(inputs))
  }

  // ---------- the fold ----------

  lemma ConjoinMembers(left: Condition, right: Condition, m: Condition)
    requires !left.True?
    ensures Conjoin(left, right).Conjunction?
    ensures m in Conjoin(left, right).args <==> m in Members(left) || m in Members(right)
  {
  }

  lemma HidesNext(acs: seq<Condition>, n: nat)
    requires |acs| == n + 1
    ensures HidesTrue(acs) <==> HidesTrue(acs[..n]) || HidesAt(acs, n)
  {
    forall j: nat | j < n ensures HidesAt(acs, j) <==> HidesAt(acs[..n], j) {
      if i :| 0 <= i < j && !acs[i].True? {
        assert !acs[..n][i].True?;
      }
      if i :| 0 <= i < j && !acs[..n][i].True? {
        assert !acs[i].True?;
      }
    }
  }

  /** What the fold produces. */
  ghost predicate Folded(acs: seq<Condition>, ac: Condition) {
    && Clean(ac)
    && (HasTrueMember(ac) <==> HidesTrue(acs))
    && (ac.True? <==> forall i | 0 <= i < |acs| :: acs[i].True?)
  }

  lemma FoldNext(acs: seq<Condition>, n: nat, before: Condition)
    requires |acs| == n + 1 && Folded(acs[..n], before) && Clean(acs[n])
    ensures Folded(acs, Conjoin(before, acs[n]))
  {
    HidesNext(acs, n);
    if before.True? {
      assert forall i | 0 <= i < n :: acs[..n][i].True? && acs[i] == acs[..n][i];
    } else {
      forall m ensures m in Conjoin(before, acs[n]).args <==> m in Members(before) || m in Members(acs[n]) {
        ConjoinMembers(before, acs[n], m);
      }
      var i :| 0 <= i < n && !acs[..n][i].True?;
      assert !acs[i].True?;
    }
  }

  lemma {:induction false} FoldMeaning(acs: seq<Condition>)
    requires forall i | 0 <= i < |acs| :: Clean(acs[i])
    ensures Folded(acs, InferredActivation(acs))
  {
    if acs != [] {
      FoldMeaning(acs[..|acs| - 1]);
      FoldNext(acs, |acs| - 1, InferredActivation(acs[..|acs| - 1]));
    }
  }

  /** The inferred condition means that all accessed streams are active. */
  lemma {:induction false} InferredMeaning(acs: seq<Condition>, inputs: set<nat>)
    ensures Holds(InferredActivation(acs), LiveInputs(inputs)) <==> AllHold(acs, inputs)
  {
    if acs != [] {
      var n := |acs| - 1;
      InferredMeaning(acs[..n], inputs);
      ConjoinMeaning(InferredActivation(acs[..n]), acs[n], LiveInputs(inputs));
      assert AllHold(acs, inputs) <==> AllHold(acs[..n], inputs) && Holds(acs[n], LiveInputs(inputs));
    }
  }

  // ---------- the simplified condition ----------

  /** The order of conditions puts `True` last. */
  ghost predicate TrueLast(before: (Condition, Condition) -> bool) {
    StrictOrder(before) && forall ac: Condition | !ac.True? :: before(ac, True)
  }

  /** In sorted members without duplicates `True` is the last one. */
  lemma SortedTrueLast(args: seq<Condition>, before: (Condition, Condition) -> bool)
    requires TrueLast(before) && Ordered(args, before) && NoDuplicates(args) && True in args
    ensures args[|args| - 1] == True && True !in args[..|args| - 1]
  {
    var i :| 0 <= i < |args| && args[i] == True;
    NothingAfterTrue(before, args[|args| - 1]);
    assert before(args[i], args[|args| - 1]) || args[i] == args[|args| - 1];
  }

  lemma NothingAfterTrue(before: (Condition, Condition) -> bool, ac: Condition)
    requires TrueLast(before)
    ensures !before(True, ac)
  {
    assert !before(True, True);
    assert !ac.True? ==> before(ac, True) && (before(True, ac) ==> before(True, True));
  }

  lemma {:induction false} DedupOrdered(args: seq<Condition>, before: (Condition, Condition) -> bool)
    requires StrictOrder(before) && Ordered(args, before)
    ensures Ordered(Dedup(args), before)
    decreases |args|
  {
    if |args| >= 2 {
      DedupOrdered(args[1..], before);
      DedupMembers(args[1..]);
      var rest := Dedup(args[1..]);
      forall i | 0 <= i < |rest| ensures before(args[0], rest[i]) || args[0] == rest[i] {
        assert rest[i] in args[1..];
        var j :| 0 <= j < |args| - 1 && args[1..][j] == rest[i];
        assert args[j + 1] == rest[i];
      }
    }
  }

  /** Simplified, its `True` comes after all other members. */
  lemma TrueSortedLast(args: seq<Condition>, before: (Condition, Condition) -> bool) returns (members: seq<Condition>)
    requires TrueLast(before) && Clean(Conjunction(args)) && True in args
    ensures Dedup(Sort(args, before)) == members + [True]
    ensures forall m :: m in args <==> m in members || m == True
    ensures forall i | 0 <= i < |members| :: OverInputs(members[i])
  {
    var sorted := Dedup(Sort(args, before));
    SimplifyDistinct(args, before);
    SortOrdered(args, before);
    DedupOrdered(Sort(args, before), before);
    SortedTrueLast(sorted, before);
    members := sorted[..|sorted| - 1];
    assert sorted == members + [True];
    MembersCovered(args, sorted, members);
  }

  lemma MembersCovered(args: seq<Condition>, sorted: seq<Condition>, members: seq<Condition>)
    requires Clean(Conjunction(args)) && (forall x :: x in args <==> x in sorted)
    requires sorted == members + [True] && True !in members
    ensures forall m :: m in args <==> m in members || m == True
    ensures forall i | 0 <= i < |members| :: OverInputs(members[i])
  {
    forall m ensures m in args <==> m in members || m == True {
      assert m in args <==> m in sorted;
    }
    forall i | 0 <= i < |members| ensures OverInputs(members[i]) {
      assert members[i] in members;
      assert members[i] in Members(Conjunction(args));
    }
  }

  /** A conjunction with `True` as a member panics once it is simplified on exactly the inputs on which it holds. */
  lemma SimplifiedTruePanics(args: seq<Condition>, before: (Condition, Condition) -> bool, inputs: set<nat>)
    requires TrueLast(before) && Clean(Conjunction(args)) && True in args
    ensures var c := NewCondition(Conjunction(Dedup(Sort(args, before))));
            && c.Ok?
            && EvalCondition(c.value, inputs)
               == if Holds(Conjunction(args), LiveInputs(inputs)) then Panic else Ok(false)
  {
    var members := TrueSortedLast(args, before);
    TrueMemberPanics(members, inputs);
    LastTrueHolds(args, members, inputs);
  }

  lemma TrueMemberPanics(members: seq<Condition>, inputs: set<nat>)
    requires forall i | 0 <= i < |members| :: OverInputs(members[i])
    ensures var c := NewCondition(Conjunction(members + [True]));
            && c.Ok?
            && EvalCondition(c.value, inputs)
               == if forall i | 0 <= i < |members| :: Holds(members[i], LiveInputs(inputs)) then Panic else Ok(false)
  {
    var ac := Conjunction(members + [True]);
    assert ac.args[|members|] == True;
    assert members + [True] + [] == members + [True];
    forall i | 0 <= i < |ac.args| && ac.args[i].Stream? ensures ac.args[i].v.InRef? {
      assert ac.args[i] == members[i];
    }
    NestedTruePanics(members, [], inputs);
  }

  lemma LastTrueHolds(args: seq<Condition>, members: seq<Condition>, inputs: set<nat>)
    requires forall m :: m in args <==> m in members || m == True
    ensures Holds(Conjunction(args), LiveInputs(inputs))
            <==> forall i | 0 <= i < |members| :: Holds(members[i], LiveInputs(inputs))
  {
    MembersMeaning(args, LiveInputs(inputs));
    forall i | 0 <= i < |members| ensures members[i] in args {
    }
  }

  /** Without such a member, and not empty, it can be run. */
  lemma SimplifiedRunnable(ac: Condition, before: (Condition, Condition) -> bool)
    requires Clean(ac) && !HasTrueMember(ac)
    ensures var simple := Simplify(Event(ac), before);
            simple.Event? && Runnable(simple.ac)
  {
    if ac.Conjunction? || ac.Disjunction? {
      SameMembers(ac.args, before);
      var simple := Dedup(Sort(ac.args, before));
      forall i | 0 <= i < |simple| ensures OverInputs(simple[i]) {
        assert simple[i] in simple && simple[i] in ac.args;
        MemberOverInputs(ac, simple[i]);
      }
    }
  }

  lemma MemberOverInputs(ac: Condition, m: Condition)
    requires Clean(ac) && !HasTrueMember(ac) && (ac.Conjunction? || ac.Disjunction?) && m in ac.args
    ensures OverInputs(m)
  {
    assert ac.Disjunction? ==> ac in Members(ac);
  }

  /**
   Exactly when the inferred clock cannot be evaluated: the condition of a stream is built, and it is
   true if all accessed streams are active, except that the evaluation panics then if an always-active
   clock is accessed after another clock.
   */
  lemma InferredPanicsIff(acs: seq<Condition>, before: (Condition, Condition) -> bool, inputs: set<nat>)
    requires TrueLast(before) && forall i | 0 <= i < |acs| :: Clean(acs[i])
    ensures var simple := Simplify(Event(InferredActivation(acs)), before);
            && simple.Event? && NewCondition(simple.ac).Ok?
            && EvalCondition(NewCondition(simple.ac).value, inputs)
               == if AllHold(acs, inputs) then (if HidesTrue(acs) then Panic else Ok(true)) else Ok(false)
  {
    var ac := InferredActivation(acs);
    FoldMeaning(acs);
    InferredMeaning(acs, inputs);
    if HasTrueMember(ac) {
      SimplifiedTruePanics(ac.args, before, inputs);
    } else {
      SimplifiedRunnable(ac, before);
      SimplifyMeaning(ac, before, LiveInputs(inputs));
      ConditionMeaning(Simplify(Event(ac), before).ac, inputs);
    }
  }

  /** So inference yields a clock that the evaluator can run exactly if no always-active clock is hidden. */
  lemma InferredRunnableIff(acs: seq<Condition>, before: (Condition, Condition) -> bool)
    requires TrueLast(before) && forall i | 0 <= i < |acs| :: Clean(acs[i])
    ensures Simplify(Event(InferredActivation(acs)), before).Event?
    ensures Runnable(Simplify(Event(InferredActivation(acs)), before).ac) <==> !HidesTrue(acs)
  {
    var ac := InferredActivation(acs);
    FoldMeaning(acs);
    if HasTrueMember(ac) {
      SameMembers(ac.args, before);
      var i :| 0 <= i < |Dedup(Sort(ac.args, before))| && Dedup(Sort(ac.args, before))[i] == True;
      NotOverInputs(Conjunction(Dedup(Sort(ac.args, before))), i);
    } else {
      SimplifiedRunnable(ac, before);
    }
  }

  /** The evaluator is given the simplified condition as it is: it names inputs only. */
  lemma InferredAsGiven(acs: seq<Condition>, before: (Condition, Condition) -> bool, clocks: seq<Condition>, own: nat)
    requires forall i | 0 <= i < |acs| :: Clean(acs[i])
    ensures var simple := Simplify(Event(InferredActivation(acs)), before);
            simple.Event? && N.ConditionFor(clocks, simple.ac, own) == simple.ac
  {
    var ac := InferredActivation(acs);
    FoldMeaning(acs);
    var simple := Simplify(Event(ac), before).ac;
    if HasTrueMember(ac) {
      SameMembers(ac.args, before);
      forall m | m in Members(simple) ensures m.True? || OverInputs(m) {
        assert m in Members(ac);
      }
      N.MembersNameInputs(simple);
    } else {
      SimplifiedRunnable(ac, before);
      assert simple.True? ==> simple in Members(simple);
      N.MembersNameInputs(simple);
    }
    N.InputsUnchanged(clocks, simple, {own});
  }
}
