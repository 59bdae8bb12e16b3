/** Activation conditions of event-driven streams: their meaning, their fast form and their type checks. */
module Activations {
  import opened Values
  import opened Expressions

  datatype Activation<V> =
    | Conjunction(args: seq<Activation<V>>)
    | Disjunction(args: seq<Activation<V>>)
    | Stream(v: V)
    | True

  /** The meaning of a condition, given the streams that have a new value. */
  ghost predicate Holds<V(!new)>(ac: Activation<V>, live: iset<V>) {
    match ac
    case Conjunction(args) => forall i | 0 <= i < |args| :: Holds(args[i], live)
    case Disjunction(args) => exists i :: 0 <= i < |args| && Holds(args[i], live)
    case Stream(v) => v in live
    case True => true
  }

  // ---------- the interpreter's form ----------

  datatype ActivationCondition =
    | TimeDriven
    | Always
    | Bits(bits: set<nat>)
    | General(ac: Activation<StreamRef>)

  /** Conditions the evaluator can run: built over inputs, with `True` only at the top. */
  predicate OverInputs(ac: Activation<StreamRef>) {
    match ac
    case Conjunction(args) => forall i | 0 <= i < |args| :: OverInputs(args[i])
    case Disjunction(args) => forall i | 0 <= i < |args| :: OverInputs(args[i])
    case Stream(x) => x.InRef?
    case True => false
  }

  predicate Runnable(ac: Activation<StreamRef>) {
    ac == True || (OverInputs(ac) && ac != Conjunction([]))
  }

  /** A conjunction of streams becomes a bit set; an output among its members is a panic. */
  function NewCondition(ac: Activation<StreamRef>): Outcome<ActivationCondition> {
    if ac.True? then Ok(Always)
    else if ac.Conjunction? then
      if ac.args == [] then Panic
      else if exists i :: 0 <= i < |ac.args| && ac.args[i].Stream? && ac.args[i].v.OutRef? then Panic
      else if forall i | 0 <= i < |ac.args| :: ac.args[i].Stream? then
        Ok(Bits(set i | 0 <= i < |ac.args| :: ac.args[i].v.ix))
      else Ok(General(ac))
    else Ok(General(ac))
  }

  function EvalCondition(c: ActivationCondition, inputs: set<nat>): Outcome<bool> {
    match c
    case Always => Ok(true)
    case Bits(bits) => Ok(bits <= inputs)
    case General(ac) => EvalGeneral(ac, inputs)
    case TimeDriven => Panic
  }

  function EvalGeneral(ac: Activation<StreamRef>, inputs: set<nat>): Outcome<bool>
    decreases ac, 1
  {
    match ac
    case Stream(x) => if x.InRef? then Ok(x.ix in inputs) else Panic
    case Conjunction(args) => EvalEvery(args, inputs)
    case Disjunction(args) => EvalSome(args, inputs)
    case True => Panic
  }

  function EvalEvery(acs: seq<Activation<StreamRef>>, inputs: set<nat>): Outcome<bool>
    decreases acs, 0
  {
    if acs == [] then Ok(true) else
    var b :- EvalGeneral(acs[0], inputs);
    if b then EvalEvery(acs[1..], inputs) else Ok(false)
  }

  function EvalSome(acs: seq<Activation<StreamRef>>, inputs: set<nat>): Outcome<bool>
    decreases acs, 0
  {
    if acs == [] then Ok(false) else
    var b :- EvalGeneral(acs[0], inputs);
    if b then Ok(true) else EvalSome(acs[1..], inputs)
  }

  ghost function LiveInputs(inputs: set<nat>): iset<StreamRef> {
    iset i | i in inputs :: InRef(i)
  }

  lemma {:induction false} EvalGeneralMeaning(ac: Activation<StreamRef>, inputs: set<nat>)
    requires OverInputs(ac)
    ensures EvalGeneral(ac, inputs) == Ok(Holds(ac, LiveInputs(inputs)))
    decreases ac, 1
  {
    match ac
    case Stream(x) =>
    case Conjunction(args) => EvalListMeaning(args, inputs);
    case Disjunction(args) => EvalListMeaning(args, inputs);
    case True =>
  }

  lemma {:induction false} EvalListMeaning(acs: seq<Activation<StreamRef>>, inputs: set<nat>)
    requires forall i | 0 <= i < |acs| :: OverInputs(acs[i])
    ensures EvalEvery(acs, inputs) == Ok(forall i | 0 <= i < |acs| :: Holds(acs[i], LiveInputs(inputs)))
    ensures EvalSome(acs, inputs) == Ok(exists i :: 0 <= i < |acs| && Holds(acs[i], LiveInputs(inputs)))
    decreases acs, 0
  {
    if acs != [] {
      var rest := acs[1..];
      EvalGeneralMeaning(acs[0], inputs);
      EvalListMeaning(rest, inputs);
      assert forall i | 1 <= i < |acs| :: acs[i] == rest[i - 1];
      if Holds(acs[0], LiveInputs(inputs)) {
        assert EvalSome(acs, inputs) == Ok(true);
      } else {
        forall i | 0 <= i < |rest| && Holds(rest[i], LiveInputs(inputs))
          ensures exists j :: 0 <= j < |acs| && Holds(acs[j], LiveInputs(inputs))
        {
          assert acs[i + 1] == rest[i];
        }
      }
    }
  }

  /** The bit-set form and the general form both mean the condition they were built from. */
  lemma ConditionMeaning(ac: Activation<StreamRef>, inputs: set<nat>)
    requires Runnable(ac)
    ensures NewCondition(ac).Ok?
    ensures EvalCondition(NewCondition(ac).value, inputs) == Ok(Holds(ac, LiveInputs(inputs)))
  {
    if ac.True? {
    } else if ac.Conjunction? && forall i | 0 <= i < |ac.args| :: ac.args[i].Stream? {
      StreamMembers(ac);
      var bits := set i | 0 <= i < |ac.args| :: ac.args[i].v.ix;
      assert NewCondition(ac) == Ok(Bits(bits));
      assert forall i | 0 <= i < |ac.args| :: Holds(ac.args[i], LiveInputs(inputs)) <==> ac.args[i].v.ix in inputs;
      if i :| 0 <= i < |ac.args| && ac.args[i].v.ix !in inputs {
        assert ac.args[i].v.ix in bits;
        assert !Holds(ac.args[i], LiveInputs(inputs));
      }
    } else {
      StreamMembers(ac);
      EvalGeneralMeaning(ac, inputs);
    }
  }

  lemma StreamMembers(ac: Activation<StreamRef>)
    requires OverInputs(ac)
    ensures ac.Conjunction? || ac.Disjunction? ==>
              forall i | 0 <= i < |ac.args| :: OverInputs(ac.args[i]) && (ac.args[i].Stream? ==> ac.args[i].v.InRef?)
  {
    if ac.Conjunction? || ac.Disjunction? {
      forall i | 0 <= i < |ac.args| && ac.args[i].Stream? ensures ac.args[i].v.InRef? {
        assert OverInputs(ac.args[i]);
      }
    }
  }

  /**
   A nested `True` cannot be run: evaluation reaches `unreachable!` exactly if the members before
   it do not decide the condition.
   */
  lemma {:induction false} NestedTruePanics(before: seq<Activation<StreamRef>>, after: seq<Activation<StreamRef>>,
                                            inputs: set<nat>)
    requires forall i | 0 <= i < |before| :: OverInputs(before[i])
    ensures EvalGeneral(Conjunction(before + [True] + after), inputs)
            == if forall i | 0 <= i < |before| :: Holds(before[i], LiveInputs(inputs)) then Panic else Ok(false)
    ensures EvalGeneral(Disjunction(before + [True] + after), inputs)
            == if exists i :: 0 <= i < |before| && Holds(before[i], LiveInputs(inputs)) then Ok(true) else Panic
  {
    EvalListMeaning(before, inputs);
    EvalBeforeTrue(before, after, inputs);
  }

  lemma {:induction false} EvalBeforeTrue(before: seq<Activation<StreamRef>>, after: seq<Activation<StreamRef>>,
                                          inputs: set<nat>)
    requires EvalEvery(before, inputs).Ok? && EvalSome(before, inputs).Ok?
    requires forall i | 0 <= i < |before| :: OverInputs(before[i])
    ensures EvalEvery(before + [True] + after, inputs) == if EvalEvery(before, inputs).value then Panic else Ok(false)
    ensures EvalSome(before + [True] + after, inputs) == if EvalSome(before, inputs).value then Ok(true) else Panic
    decreases |before|
  {
    var all := before + [True] + after;
    if before == [] {
      assert all[0] == True;
    } else {
      assert all[0] == before[0] && all[1..] == before[1..] + [True] + after;
      EvalListMeaning(before[1..], inputs);
      EvalBeforeTrue(before[1..], after, inputs);
    }
  }

  /** Building the fast form, one conjunct at a time. */
  method BuildCondition(ac: Activation<StreamRef>) returns (c: Outcome<ActivationCondition>)
    ensures c == NewCondition(ac)
  {
    if ac.True? {
      return Ok(Always);
    }
    if ac.Conjunction? {
      if ac.args == [] {
        return Panic;
      }
      var ixs: seq<nat> := [];
      for i := 0 to |ac.args|
        invariant forall j | 0 <= j < i && ac.args[j].Stream? :: ac.args[j].v.InRef?
        invariant |ixs| <= i
        invariant |ixs| == i <==> forall j | 0 <= j < i :: ac.args[j].Stream?
        invariant |ixs| == i ==> forall j | 0 <= j < i :: ixs[j] == ac.args[j].v.ix
      {
        if ac.args[i].Stream? {
          if ac.args[i].v.OutRef? {
            return Panic;
          }
          ixs := ixs + [ac.args[i].v.ix];
        }
      }
      if |ixs| == |ac.args| {
        var bits: set<nat> := {};
        for i := 0 to |ixs|
          invariant bits == set j | 0 <= j < i :: ac.args[j].v.ix
        {
          bits := bits + {ixs[i]};
        }
        return Ok(Bits(bits));
      }
    }
    return Ok(General(ac));
  }

  // ---------- the frontend's type checks ----------

  /** The syntactic implication check between activation conditions. */
  predicate ImpliesValid<V(==)>(left: Activation<V>, right: Activation<V>) {
    if left == right then true
    else if left.Conjunction? && right.Conjunction? then forall cond | cond in right.args :: cond in left.args
    else if left.Conjunction? then right in left.args
    else right.True?
  }

  /** An accepted implication holds for every set of new values. */
  lemma ImpliesValidSound<V(!new)>(left: Activation<V>, right: Activation<V>, live: iset<V>)
    requires ImpliesValid(left, right) && Holds(left, live)
    ensures Holds(right, live)
  {
    if left != right && left.Conjunction? {
      forall cond | cond in left.args ensures Holds(cond, live) {
        var i :| 0 <= i < |left.args| && left.args[i] == cond;
      }
    }
  }

  /**
   What is accepted: equal conditions; of a conjunction, its members and the conjunctions of some of
   them; and `True` of anything else.
   */
  lemma ImpliesValidIff<V>(left: Activation<V>, right: Activation<V>)
    ensures ImpliesValid(left, left)
    ensures left.Conjunction? && !right.Conjunction? ==>
              (ImpliesValid(left, right) <==> exists i :: 0 <= i < |left.args| && left.args[i] == right)
    ensures left.Conjunction? && right.Conjunction? ==>
              (ImpliesValid(left, right) <==> forall j | 0 <= j < |right.args| :: right.args[j] in left.args)
    ensures !left.Conjunction? ==> (ImpliesValid(left, right) <==> right == left || right == True)
  {
  }

  predicate AllStreams<V>(args: seq<Activation<V>>) {
    forall i | 0 <= i < |args| :: args[i].Stream?
  }

  /** One condition holds whenever the other does. */
  ghost predicate Implies<V(!new)>(left: Activation<V>, right: Activation<V>) {
    forall live: iset<V> :: Holds(left, live) ==> Holds(right, live)
  }

  ghost function StreamsOf<V(!new)>(args: seq<Activation<V>>): iset<V> {
    iset v: V | Stream(v) in args
  }

  /** A stream that every set satisfying the conjunction contains is one of its members. */
  lemma ImpliedMember<V(!new)>(args: seq<Activation<V>>, v: V)
    requires AllStreams(args) && Implies(Conjunction(args), Stream(v))
    ensures Stream(v) in args
  {
    var live := StreamsOf(args);
    var conj := Conjunction(args);
    forall i | 0 <= i < |conj.args| ensures Holds(conj.args[i], live) {
      assert args[i] in args && args[i] == Stream(args[i].v);
    }
    assert Holds(conj, live);
    assert Holds(Stream(v), live);
  }

  /**
   Between conjunctions of streams, and from such a conjunction to a single stream, the check
   decides the implication: it accepts exactly if the implication holds for every set of new values.
   */
  lemma ImpliesValidExact<V(!new)>(left: Activation<V>, right: Activation<V>)
    requires left.Conjunction? && AllStreams(left.args)
    requires right.Stream? || (right.Conjunction? && AllStreams(right.args))
    ensures ImpliesValid(left, right) <==> Implies(left, right)
  {
    if ImpliesValid(left, right) {
      forall live: iset<V> | Holds(left, live) ensures Holds(right, live) {
        ImpliesValidSound(left, right, live);
      }
    }
    if Implies(left, right) {
      if right.Stream? {
        ImpliedMember(left.args, right.v);
      } else {
        forall cond | cond in right.args ensures cond in left.args {
          ImpliedConjunct(left, right, cond);
        }
      }
    }
  }

  lemma ImpliedConjunct<V(!new)>(left: Activation<V>, right: Activation<V>, cond: Activation<V>)
    requires left.Conjunction? && AllStreams(left.args) && right.Conjunction? && AllStreams(right.args)
    requires Implies(left, right) && cond in right.args
    ensures cond in left.args
  {
    var i :| 0 <= i < |right.args| && right.args[i] == cond;
    forall live: iset<V> | Holds(left, live) ensures Holds(Stream(cond.v), live) {
      assert Holds(right, live);
      assert Holds(right.args[i], live);
    }
    ImpliedMember(left.args, cond.v);
  }

  /**
   Beyond these the check is incomplete: it rejects `a -> a || b`, a single stream against the
   conjunction of it and, although every condition implies `True`, a conjunction against `True`.
   */
  lemma ImpliesValidIncomplete<V(!new)>(a: V, b: V)
    ensures var wide := Disjunction([Stream(a), Stream(b)]);
            !ImpliesValid(Stream(a), wide) && Implies(Stream(a), wide)
    ensures !ImpliesValid(Stream(a), Conjunction([Stream(a)])) && Implies(Stream(a), Conjunction([Stream(a)]))
    ensures !ImpliesValid(Conjunction([Stream(a)]), True) && Implies(Conjunction([Stream(a)]), True)
  {
    var wide := Disjunction([Stream(a), Stream(b)]);
    assert wide.args[0] == Stream(a);
  }

  /** The conjunction that infers the clock of an unannotated stream. */
  function Conjoin<V>(left: Activation<V>, right: Activation<V>): Activation<V> {
    if left.True? then right
    else if left.Conjunction? && right.Conjunction? then Conjunction(left.args + right.args)
    else if left.Conjunction? then Conjunction(left.args + [right])
    else if right.Conjunction? then Conjunction(right.args + [left])
    else Conjunction([left, right])
  }

  function Members<V>(ac: Activation<V>): seq<Activation<V>> {
    if ac.Conjunction? then ac.args else [ac]
  }

  lemma {:induction false} MembersHold<V(!new)>(ac: Activation<V>, live: iset<V>)
    ensures Holds(ac, live) <==> forall i | 0 <= i < |Members(ac)| :: Holds(Members(ac)[i], live)
  {
    var members := Members(ac);
    if ac.Conjunction? {
      assert members == ac.args;
    } else {
      assert |members| == 1 && members[0] == ac;
      if forall i | 0 <= i < |members| :: Holds(members[i], live) {
        assert Holds(members[0], live);
      }
    }
  }

  lemma ConjoinMeaning<V(!new)>(left: Activation<V>, right: Activation<V>, live: iset<V>)
    ensures Holds(Conjoin(left, right), live) <==> Holds(left, live) && Holds(right, live)
  {
    var both := Conjoin(left, right);
    if !left.True? {
      assert forall i | 0 <= i < |both.args| :: both.args[i] in both.args;
      var ls, rs := Members(left), Members(right);
      MembersHold(left, live);
      MembersHold(right, live);
      var leftFirst := left.Conjunction? || !right.Conjunction?;
      var first, second := if leftFirst then ls else rs, if leftFirst then rs else ls;
      assert both == Conjunction(first + second);
      JoinedHold(first, second, live);
    }
  }

  lemma JoinedHold<V(!new)>(first: seq<Activation<V>>, second: seq<Activation<V>>, live: iset<V>)
    ensures Holds(Conjunction(first + second), live)
            <==> Holds(Conjunction(first), live) && Holds(Conjunction(second), live)
  {
    var both := Conjunction(first + second);
    if Holds(both, live) {
      forall i | 0 <= i < |first| ensures Holds(first[i], live) {
        assert both.args[i] == first[i];
      }
      forall i | 0 <= i < |second| ensures Holds(second[i], live) {
        assert both.args[|first| + i] == second[i];
      }
    }
  }

  lemma NotOverInputs(ac: Activation<StreamRef>, i: nat)
    requires ac.Conjunction? && i < |ac.args| && !OverInputs(ac.args[i])
    ensures !OverInputs(ac)
  {
  }
}
