/**
 The activation condition of a stream, with the names of outputs replaced by the conditions of these
 outputs: each name is replaced once, and a name that is met again becomes `True`.
 */
module NormalizedClocks {
  import opened Sequences
  import opened Values
  import opened Expressions
  import opened Activations

  type Condition = Activation<StreamRef>

  /** A condition, or a list of them, after the walk, and the outputs whose names have been met. */
  datatype Walked = Walked(ac: Condition, seen: set<nat>)

  datatype WalkedAll = WalkedAll(acs: seq<Condition>, seen: set<nat>)

  /** The outputs that have a condition and have not been met. */
  function Unseen(clocks: seq<Condition>, seen: set<nat>): set<nat> {
    set o: nat | o < |clocks| && o !in seen
  }

  lemma UnseenShrinks(clocks: seq<Condition>, seen: set<nat>, more: set<nat>)
    requires seen <= more
    ensures |Unseen(clocks, more)| <= |Unseen(clocks, seen)|
    ensures forall o: nat | o < |clocks| && o in more && o !in seen ::
              |Unseen(clocks, more)| < |Unseen(clocks, seen)|
  {
    SubsetCardinality(Unseen(clocks, more), Unseen(clocks, seen));
    forall o: nat | o < |clocks| && o in more && o !in seen
      ensures |Unseen(clocks, more)| < |Unseen(clocks, seen)|
    {
      SubsetCardinality(Unseen(clocks, more), Unseen(clocks, seen) - {o});
    }
  }

  lemma SubsetCardinality(a: set<nat>, b: set<nat>)
    requires a <= b
    ensures |a| <= |b|
  {
    if a != {} {
      var x :| x in a;
      SubsetCardinality(a - {x}, b - {x});
    }
  }

  /** Replaces the name of an output that has not been met by its condition, and goes on in there. */
  function Normalize(clocks: seq<Condition>, ac: Condition, seen: set<nat>): (r: Walked)
    ensures seen <= r.seen
    decreases |Unseen(clocks, seen)|, ac, 1
  {
    match ac
    case Conjunction(args) =>
      var w := NormalizeAll(clocks, args, seen);
      Walked(Conjunction(w.acs), w.seen)
    case Disjunction(args) =>
      var w := NormalizeAll(clocks, args, seen);
      Walked(Disjunction(w.acs), w.seen)
    case Stream(x) =>
      if x.InRef? || x.ix in seen || x.ix >= |clocks| then Walked(ac, seen)
      else
        UnseenShrinks(clocks, seen, seen + {x.ix});
        Normalize(clocks, clocks[x.ix], seen + {x.ix})
    case True => Walked(ac, seen)
  }

  function NormalizeAll(clocks: seq<Condition>, acs: seq<Condition>, seen: set<nat>): (r: WalkedAll)
    ensures seen <= r.seen && |r.acs| == |acs|
    decreases |Unseen(clocks, seen)|, acs, 0
  {
    if acs == [] then WalkedAll([], seen) else
    var first := Normalize(clocks, acs[0], seen);
    UnseenShrinks(clocks, seen, first.seen);
    var rest := NormalizeAll(clocks, acs[1..], first.seen);
    WalkedAll([first.ac] + rest.acs, rest.seen)
  }

  /** Names of outputs that are left are taken for self-references. */
  function Translated(ac: Condition): Condition {
    match ac
    case Conjunction(args) => Conjunction(seq(|args|, i requires 0 <= i < |args| => Translated(args[i])))
    case Disjunction(args) => Disjunction(seq(|args|, i requires 0 <= i < |args| => Translated(args[i])))
    case Stream(x) => if x.InRef? then ac else True
    case True => True
  }

  /** The condition the evaluator is given for a stream whose own name counts as met. */
  function ConditionFor(clocks: seq<Condition>, ac: Condition, own: nat): Condition {
    Translated(Normalize(clocks, ac, {own}).ac)
  }

  // ---------- its meaning ----------

  /** Exactly the given inputs are live, and exactly the outputs whose conditions hold. */
  ghost predicate Consistent(clocks: seq<Condition>, inputs: set<nat>, live: iset<StreamRef>) {
    && (forall i: nat :: InRef(i) in live <==> i in inputs)
    && forall o: nat | o < |clocks| :: OutRef(o) in live <==> Holds(clocks[o], live)
  }

  lemma TranslatedMembers(acs: seq<Condition>, live: iset<StreamRef>)
    ensures var conj, disj := Translated(Conjunction(acs)), Translated(Disjunction(acs));
            && (OverInputs(conj) <==> forall i | 0 <= i < |acs| :: OverInputs(Translated(acs[i])))
            && (OverInputs(disj) <==> forall i | 0 <= i < |acs| :: OverInputs(Translated(acs[i])))
            && (Holds(conj, live) <==> forall i | 0 <= i < |acs| :: Holds(Translated(acs[i]), live))
            && (Holds(disj, live) <==> exists i :: 0 <= i < |acs| && Holds(Translated(acs[i]), live))
  {
    var conj, disj := Translated(Conjunction(acs)), Translated(Disjunction(acs));
    assert |conj.args| == |acs| && |disj.args| == |acs|;
    assert forall i | 0 <= i < |acs| :: conj.args[i] == Translated(acs[i]) && disj.args[i] == Translated(acs[i]);
    if i :| 0 <= i < |acs| && Holds(Translated(acs[i]), live) {
      assert Holds(disj.args[i], live);
    }
  }

  /** The condition means what is declared, if no name of an output is left in it. */
  lemma {:induction false} NormalizedMeaning(clocks: seq<Condition>, ac: Condition, seen: set<nat>, inputs: set<nat>,
                                             live: iset<StreamRef>)
    requires Consistent(clocks, inputs, live) && OverInputs(Translated(Normalize(clocks, ac, seen).ac))
    ensures Holds(Translated(Normalize(clocks, ac, seen).ac), LiveInputs(inputs)) <==> Holds(ac, live)
    decreases |Unseen(clocks, seen)|, ac, 1
  {
    match ac
    case Conjunction(args) =>
      TranslatedMembers(NormalizeAll(clocks, args, seen).acs, LiveInputs(inputs));
      AllNormalized(clocks, args, seen, inputs, live);
    case Disjunction(args) =>
      TranslatedMembers(NormalizeAll(clocks, args, seen).acs, LiveInputs(inputs));
      AllNormalized(clocks, args, seen, inputs, live);
      SomeHolds(args, NormalizeAll(clocks, args, seen).acs, inputs, live);
    case Stream(x) =>
      if x.OutRef? && x.ix !in seen && x.ix < |clocks| {
        UnseenShrinks(clocks, seen, seen + {x.ix});
        NormalizedMeaning(clocks, clocks[x.ix], seen + {x.ix}, inputs, live);
      } else {
        assert x.InRef? && Translated(ac) == ac;
        assert x in LiveInputs(inputs) <==> x.ix in inputs;
      }
    case True =>
  }

  lemma SomeHolds(args: seq<Condition>, acs: seq<Condition>, inputs: set<nat>, live: iset<StreamRef>)
    requires |acs| == |args|
    requires forall i | 0 <= i < |args| :: Holds(Translated(acs[i]), LiveInputs(inputs)) <==> Holds(args[i], live)
    ensures Holds(Disjunction(args), live)
            <==> exists i :: 0 <= i < |acs| && Holds(Translated(acs[i]), LiveInputs(inputs))
  {
    if i :| 0 <= i < |acs| && Holds(Translated(acs[i]), LiveInputs(inputs)) {
      assert Holds(args[i], live);
    }
  }

  lemma {:induction false} AllNormalized(clocks: seq<Condition>, acs: seq<Condition>, seen: set<nat>, inputs: set<nat>,
                                         live: iset<StreamRef>)
    requires Consistent(clocks, inputs, live)
    requires forall i | 0 <= i < |acs| :: OverInputs(Translated(NormalizeAll(clocks, acs, seen).acs[i]))
    ensures forall i | 0 <= i < |acs| ::
              Holds(Translated(NormalizeAll(clocks, acs, seen).acs[i]), LiveInputs(inputs)) <==> Holds(acs[i], live)
    decreases |Unseen(clocks, seen)|, acs, 0
  {
    if acs != [] {
      var all, first := NormalizeAll(clocks, acs, seen).acs, Normalize(clocks, acs[0], seen);
      var rest := NormalizeAll(clocks, acs[1..], first.seen).acs;
      UnseenShrinks(clocks, seen, first.seen);
      assert all == [first.ac] + rest;
      assert OverInputs(Translated(all[0]));
      NormalizedMeaning(clocks, acs[0], seen, inputs, live);
      forall i | 0 <= i < |rest| ensures OverInputs(Translated(rest[i])) {
        assert rest[i] == all[i + 1];
      }
      AllNormalized(clocks, acs[1..], first.seen, inputs, live);
      forall i | 0 < i < |acs| ensures all[i] == rest[i - 1] && acs[i] == acs[1..][i - 1] {
      }
    }
  }

  // ---------- which conditions are over inputs ----------

  /** The names of outputs in the order in which the walk meets them. */
  function Met(clocks: seq<Condition>, ac: Condition, seen: set<nat>): seq<nat>
    decreases |Unseen(clocks, seen)|, ac, 1
  {
    match ac
    case Conjunction(args) => MetAll(clocks, args, seen)
    case Disjunction(args) => MetAll(clocks, args, seen)
    case Stream(x) =>
      if x.InRef? then []
      else if x.ix in seen || x.ix >= |clocks| then [x.ix]
      else
        UnseenShrinks(clocks, seen, seen + {x.ix});
        [x.ix] + Met(clocks, clocks[x.ix], seen + {x.ix})
    case True => []
  }

  function MetAll(clocks: seq<Condition>, acs: seq<Condition>, seen: set<nat>): seq<nat>
    decreases |Unseen(clocks, seen)|, acs, 0
  {
    if acs == [] then [] else
    var first := Normalize(clocks, acs[0], seen);
    UnseenShrinks(clocks, seen, first.seen);
    Met(clocks, acs[0], seen) + MetAll(clocks, acs[1..], first.seen)
  }

  /** Built over streams, without a nested `True`. */
  predicate OverStreams(ac: Condition, outputs: nat) {
    match ac
    case Conjunction(args) => forall i | 0 <= i < |args| :: OverStreams(args[i], outputs)
    case Disjunction(args) => forall i | 0 <= i < |args| :: OverStreams(args[i], outputs)
    case Stream(x) => x.OutRef? ==> x.ix < outputs
    case True => false
  }

  /** No name is met twice, and none that was met before. */
  ghost predicate MetOnce(met: seq<nat>, seen: set<nat>) {
    NoDuplicates(met) && forall o | o in met :: o !in seen
  }

  lemma MetOnceParts(a: seq<nat>, b: seq<nat>, seen: set<nat>, more: set<nat>)
    requires more == seen + Elements(a)
    ensures MetOnce(a + b, seen) <==> MetOnce(a, seen) && MetOnce(b, more)
  {
    if MetOnce(a + b, seen) {
      SplitOnce(a, b, seen, more);
    }
    if MetOnce(a, seen) && MetOnce(b, more) {
      JoinOnce(a, b, seen, more);
    }
  }

  lemma SplitOnce(a: seq<nat>, b: seq<nat>, seen: set<nat>, more: set<nat>)
    requires more == seen + Elements(a) && MetOnce(a + b, seen)
    ensures MetOnce(a, seen) && MetOnce(b, more)
  {
    var c := a + b;
    assert forall i | 0 <= i < |a| :: c[i] == a[i];
    assert forall j | 0 <= j < |b| :: c[|a| + j] == b[j];
    forall i, j | 0 <= i < |a| && 0 <= j < |b| ensures a[i] != b[j] {
      assert c[i] != c[|a| + j];
    }
    assert forall o | o in b :: o in c;
    assert forall o | o in a :: o in c;
  }

  lemma JoinOnce(a: seq<nat>, b: seq<nat>, seen: set<nat>, more: set<nat>)
    requires more == seen + Elements(a) && MetOnce(a, seen) && MetOnce(b, more)
    ensures MetOnce(a + b, seen)
  {
    var c := a + b;
    forall i, j | 0 <= i < j < |c| ensures c[i] != c[j] {
      assert i < |a| ==> c[i] in a;
      assert j >= |a| ==> c[j] in b;
    }
  }

  /** The condition of a stream is over inputs exactly if the walk meets no name of an output twice. */
  lemma {:induction false} NormalizedIff(clocks: seq<Condition>, ac: Condition, seen: set<nat>)
    requires OverStreams(ac, |clocks|) && forall o | 0 <= o < |clocks| :: OverStreams(clocks[o], |clocks|)
    ensures OverInputs(Translated(Normalize(clocks, ac, seen).ac)) <==> MetOnce(Met(clocks, ac, seen), seen)
    ensures Normalize(clocks, ac, seen).seen == seen + Elements(Met(clocks, ac, seen))
    decreases |Unseen(clocks, seen)|, ac, 1
  {
    match ac
    case Conjunction(args) =>
      AllNormalizedIff(clocks, args, seen);
      TranslatedMembers(NormalizeAll(clocks, args, seen).acs, iset{});
    case Disjunction(args) =>
      AllNormalizedIff(clocks, args, seen);
      TranslatedMembers(NormalizeAll(clocks, args, seen).acs, iset{});
    case Stream(x) =>
      if x.OutRef? && x.ix !in seen {
        UnseenShrinks(clocks, seen, seen + {x.ix});
        NormalizedIff(clocks, clocks[x.ix], seen + {x.ix});
        MetOnceParts([x.ix], Met(clocks, clocks[x.ix], seen + {x.ix}), seen, seen + {x.ix});
      } else if x.OutRef? {
        assert x.ix in Met(clocks, ac, seen);
      }
    case True =>
  }

  lemma {:induction false} AllNormalizedIff(clocks: seq<Condition>, acs: seq<Condition>, seen: set<nat>)
    requires forall i | 0 <= i < |acs| :: OverStreams(acs[i], |clocks|)
    requires forall o | 0 <= o < |clocks| :: OverStreams(clocks[o], |clocks|)
    ensures (forall i | 0 <= i < |acs| :: OverInputs(Translated(NormalizeAll(clocks, acs, seen).acs[i])))
            <==> MetOnce(MetAll(clocks, acs, seen), seen)
    ensures NormalizeAll(clocks, acs, seen).seen == seen + Elements(MetAll(clocks, acs, seen))
    decreases |Unseen(clocks, seen)|, acs, 0
  {
    if acs != [] {
      var first := Normalize(clocks, acs[0], seen);
      var all, rest := NormalizeAll(clocks, acs, seen).acs, NormalizeAll(clocks, acs[1..], first.seen).acs;
      UnseenShrinks(clocks, seen, first.seen);
      NormalizedIff(clocks, acs[0], seen);
      AllNormalizedIff(clocks, acs[1..], first.seen);
      MetOnceParts(Met(clocks, acs[0], seen), MetAll(clocks, acs[1..], first.seen), seen, first.seen);
      assert all == [first.ac] + rest;
      AllOver(all, first.ac, rest);
    }
  }

  lemma AllOver(all: seq<Condition>, first: Condition, rest: seq<Condition>)
    requires all == [first] + rest
    ensures (forall i | 0 <= i < |all| :: OverInputs(Translated(all[i])))
            <==> OverInputs(Translated(first)) && forall i | 0 <= i < |rest| :: OverInputs(Translated(rest[i]))
  {
    assert all[0] == first && forall i | 0 <= i < |rest| :: all[i + 1] == rest[i];
    assert forall i | 0 < i < |all| :: all[i] == rest[i - 1];
  }

  /**
   Whenever no name is met twice, the evaluator can run the condition, and it means what is declared:
   the stream is active exactly if its condition holds of the live inputs and outputs.
   */
  lemma ConditionForMeaning(clocks: seq<Condition>, ac: Condition, own: nat, inputs: set<nat>, live: iset<StreamRef>)
    requires OverStreams(ac, |clocks|) && forall o | 0 <= o < |clocks| :: OverStreams(clocks[o], |clocks|)
    requires MetOnce(Met(clocks, ac, {own}), {own}) && Consistent(clocks, inputs, live)
    ensures OverInputs(ConditionFor(clocks, ac, own))
    ensures Holds(ConditionFor(clocks, ac, own), LiveInputs(inputs)) <==> Holds(ac, live)
  {
    NormalizedIff(clocks, ac, {own});
    NormalizedMeaning(clocks, ac, {own}, inputs, live);
  }

  /**
   `y` is a copy of an input, and another stream is annotated with `(y && a) || (y && b)`: the second
   `y` becomes `True`, and the evaluation panics unless the first disjunct is true.
   */
  lemma RepeatedNamePanics(i: nat, a: nat, b: nat, inputs: set<nat>)
    ensures var y := Stream(OutRef(0));
            var ac := Disjunction([Conjunction([y, Stream(InRef(a))]), Conjunction([y, Stream(InRef(b))])]);
            var given := ConditionFor([Stream(InRef(i))], ac, 1);
            && NewCondition(given) == Ok(General(given))
            && EvalCondition(General(given), inputs) == if i in inputs && a in inputs then Ok(true) else Panic
  {
    var clocks := [Stream(InRef(i))];
    var y, x := Stream(OutRef(0)), Stream(InRef(i));
    var left, right := [y, Stream(InRef(a))], [y, Stream(InRef(b))];
    PairNormalized(clocks, y, Stream(InRef(a)), {1});
    assert Normalize(clocks, y, {1}) == Walked(x, {1, 0}) by {
      assert {1} + {0} == {1, 0};
    }
    PairNormalized(clocks, y, Stream(InRef(b)), {1, 0});
    PairNormalized(clocks, Conjunction(left), Conjunction(right), {1});
    PairTranslated(x, Stream(InRef(a)));
    PairTranslated(y, Stream(InRef(b)));
    PairTranslated(Conjunction([x, Stream(InRef(a))]), Conjunction([y, Stream(InRef(b))]));
    PairEvaluated(x, Stream(InRef(a)), inputs);
    PairEvaluated(True, Stream(InRef(b)), inputs);
    PairEvaluated(Conjunction([x, Stream(InRef(a))]), Conjunction([True, Stream(InRef(b))]), inputs);
  }

  lemma PairNormalized(clocks: seq<Condition>, a: Condition, b: Condition, seen: set<nat>)
    ensures var first := Normalize(clocks, a, seen);
            var second := Normalize(clocks, b, first.seen);
            NormalizeAll(clocks, [a, b], seen) == WalkedAll([first.ac, second.ac], second.seen)
  {
    assert [a, b][1..] == [b] && [b][1..] == [];
    var first := Normalize(clocks, a, seen);
    var second := Normalize(clocks, b, first.seen);
    assert NormalizeAll(clocks, [b], first.seen) == WalkedAll([second.ac] + [], second.seen);
    assert [first.ac] + [second.ac] == [first.ac, second.ac];
  }

  lemma PairTranslated(a: Condition, b: Condition)
    ensures Translated(Conjunction([a, b])) == Conjunction([Translated(a), Translated(b)])
    ensures Translated(Disjunction([a, b])) == Disjunction([Translated(a), Translated(b)])
  {
    assert Translated(Conjunction([a, b])).args == [Translated(a), Translated(b)];
    assert Translated(Disjunction([a, b])).args == [Translated(a), Translated(b)];
  }

  lemma PairEvaluated(a: Condition, b: Condition, inputs: set<nat>)
    ensures var first, second := EvalGeneral(a, inputs), EvalGeneral(b, inputs);
            && EvalGeneral(Conjunction([a, b]), inputs)
               == (if first.Panic? then Panic else if first.value then second else Ok(false))
            && EvalGeneral(Disjunction([a, b]), inputs)
               == (if first.Panic? then Panic else if first.value then Ok(true) else second)
  {
    assert [a, b][1..] == [b] && [b][1..] == [];
    assert EvalEvery([], inputs) == Ok(true) && EvalSome([], inputs) == Ok(false);
    var second := EvalGeneral(b, inputs);
    assert EvalEvery([b], inputs) == second;
    assert EvalSome([b], inputs) == if second.Panic? then Panic else if second.value then Ok(true) else Ok(false);
    assert EvalEvery([a, b], inputs) == EvalGeneral(Conjunction([a, b]), inputs);
    assert EvalSome([a, b], inputs) == EvalGeneral(Disjunction([a, b]), inputs);
  }

  // ---------- conditions over inputs ----------

  /** No output is named. */
  predicate NamesInputs(ac: Condition) {
    match ac
    case Conjunction(args) => forall i | 0 <= i < |args| :: NamesInputs(args[i])
    case Disjunction(args) => forall i | 0 <= i < |args| :: NamesInputs(args[i])
    case Stream(x) => x.InRef?
    case True => true
  }

  /** A condition in which no output is named is left as it is. */
  lemma {:induction false} InputsUnchanged(clocks: seq<Condition>, ac: Condition, seen: set<nat>)
    requires NamesInputs(ac)
    ensures Normalize(clocks, ac, seen) == Walked(ac, seen) && Translated(ac) == ac
    decreases ac, 1
  {
    match ac
    case Conjunction(args) =>
      AllUnchanged(clocks, args, seen);
      assert Translated(ac).args == args;
    case Disjunction(args) =>
      AllUnchanged(clocks, args, seen);
      assert Translated(ac).args == args;
    case Stream(_) =>
    case True =>
  }

  lemma {:induction false} AllUnchanged(clocks: seq<Condition>, acs: seq<Condition>, seen: set<nat>)
    requires forall i | 0 <= i < |acs| :: NamesInputs(acs[i])
    ensures NormalizeAll(clocks, acs, seen) == WalkedAll(acs, seen)
    ensures forall i | 0 <= i < |acs| :: Translated(acs[i]) == acs[i]
    decreases acs, 0
  {
    if acs != [] {
      InputsUnchanged(clocks, acs[0], seen);
      AllUnchanged(clocks, acs[1..], seen);
      assert acs == [acs[0]] + acs[1..];
    }
  }

  lemma {:induction false} OverInputsNames(ac: Condition)
    requires OverInputs(ac)
    ensures NamesInputs(ac)
  {
    match ac
    case Conjunction(args) =>
      forall i | 0 <= i < |args| ensures NamesInputs(args[i]) {
        OverInputsNames(args[i]);
      }
    case Disjunction(args) =>
      forall i | 0 <= i < |args| ensures NamesInputs(args[i]) {
        OverInputsNames(args[i]);
      }
    case Stream(_) =>
    case True =>
  }

  lemma MembersNameInputs(ac: Condition)
    requires forall m | m in Members(ac) :: m.True? || OverInputs(m)
    ensures NamesInputs(ac)
  {
    if ac.Conjunction? {
      forall i | 0 <= i < |ac.args| ensures NamesInputs(ac.args[i]) {
        assert ac.args[i] in Members(ac);
        if !ac.args[i].True? {
          OverInputsNames(ac.args[i]);
        }
      }
    } else {
      assert ac in Members(ac);
      if !ac.True? {
        OverInputsNames(ac);
      }
    }
  }

  // ---------- when the evaluation panics ----------

  /**
   Evaluated from left to right on the live streams, the declared condition reaches `True`, or a name
   of an output that the walk has met before: all members before it leave their condition undecided.
   */
  ghost predicate ReachesAgain(clocks: seq<Condition>, ac: Condition, seen: set<nat>, live: iset<StreamRef>)
    decreases |Unseen(clocks, seen)|, ac, 1
  {
    match ac
    case Conjunction(args) => ReachesAmong(clocks, args, seen, live, true)
    case Disjunction(args) => ReachesAmong(clocks, args, seen, live, false)
    case Stream(x) =>
      if x.InRef? then false
      else if x.ix in seen || x.ix >= |clocks| then true
      else
        UnseenShrinks(clocks, seen, seen + {x.ix});
        ReachesAgain(clocks, clocks[x.ix], seen + {x.ix}, live)
    case True => true
  }

  /** A member leaves a conjunction undecided if it holds, and a disjunction if it does not. */
  ghost predicate ReachesAmong(clocks: seq<Condition>, acs: seq<Condition>, seen: set<nat>, live: iset<StreamRef>,
                               conjunction: bool)
    decreases |Unseen(clocks, seen)|, acs, 0
  {
    if acs == [] then false else
    var first := Normalize(clocks, acs[0], seen);
    UnseenShrinks(clocks, seen, first.seen);
    || ReachesAgain(clocks, acs[0], seen, live)
    || ((Holds(acs[0], live) <==> conjunction) && ReachesAmong(clocks, acs[1..], first.seen, live, conjunction))
  }

  function AllTranslated(acs: seq<Condition>): (r: seq<Condition>)
    ensures |r| == |acs| && forall i | 0 <= i < |acs| :: r[i] == Translated(acs[i])
  {
    if acs == [] then [] else [Translated(acs[0])] + AllTranslated(acs[1..])
  }

  lemma MembersTranslated(acs: seq<Condition>)
    ensures Translated(Conjunction(acs)) == Conjunction(AllTranslated(acs))
    ensures Translated(Disjunction(acs)) == Disjunction(AllTranslated(acs))
  {
    assert Translated(Conjunction(acs)).args == AllTranslated(acs);
    assert Translated(Disjunction(acs)).args == AllTranslated(acs);
  }

  lemma FirstTranslated(first: Condition, rest: seq<Condition>)
    ensures AllTranslated([first] + rest) == [Translated(first)] + AllTranslated(rest)
  {
    assert ([first] + rest)[1..] == rest;
  }

  lemma AllHoldNext<V(!new)>(acs: seq<Activation<V>>, live: iset<V>)
    requires acs != []
    ensures Holds(Conjunction(acs), live) <==> Holds(acs[0], live) && Holds(Conjunction(acs[1..]), live)
    ensures Holds(Disjunction(acs), live) <==> Holds(acs[0], live) || Holds(Disjunction(acs[1..]), live)
  {
    var rest := acs[1..];
    assert forall i | 0 < i < |acs| :: acs[i] == rest[i - 1];
    if i :| 0 <= i < |rest| && Holds(rest[i], live) {
      assert Holds(acs[i + 1], live);
    }
  }

  /** The outcome of the general form, for any set of live streams that is consistent with the inputs. */
  lemma {:induction false} GeneralOutcome(clocks: seq<Condition>, ac: Condition, seen: set<nat>, inputs: set<nat>,
                                          live: iset<StreamRef>)
    requires Consistent(clocks, inputs, live)
    ensures EvalGeneral(Translated(Normalize(clocks, ac, seen).ac), inputs)
            == if ReachesAgain(clocks, ac, seen, live) then Panic else Ok(Holds(ac, live))
    decreases |Unseen(clocks, seen)|, ac, 1
  {
    match ac
    case Conjunction(args) =>
      ListOutcome(clocks, args, seen, inputs, live);
      MembersTranslated(NormalizeAll(clocks, args, seen).acs);
    case Disjunction(args) =>
      ListOutcome(clocks, args, seen, inputs, live);
      MembersTranslated(NormalizeAll(clocks, args, seen).acs);
    case Stream(x) =>
      if x.OutRef? && x.ix !in seen && x.ix < |clocks| {
        UnseenShrinks(clocks, seen, seen + {x.ix});
        GeneralOutcome(clocks, clocks[x.ix], seen + {x.ix}, inputs, live);
      }
    case True =>
  }

  lemma {:induction false} ListOutcome(clocks: seq<Condition>, acs: seq<Condition>, seen: set<nat>, inputs: set<nat>,
                                       live: iset<StreamRef>)
    requires Consistent(clocks, inputs, live)
    ensures var given := AllTranslated(NormalizeAll(clocks, acs, seen).acs);
            && EvalEvery(given, inputs) == (if ReachesAmong(clocks, acs, seen, live, true) then Panic
                                            else Ok(Holds(Conjunction(acs), live)))
            && EvalSome(given, inputs) == (if ReachesAmong(clocks, acs, seen, live, false) then Panic
                                           else Ok(Holds(Disjunction(acs), live)))
    decreases |Unseen(clocks, seen)|, acs, 0
  {
    if acs != [] {
      var first := Normalize(clocks, acs[0], seen);
      var rest := NormalizeAll(clocks, acs[1..], first.seen).acs;
      UnseenShrinks(clocks, seen, first.seen);
      GeneralOutcome(clocks, acs[0], seen, inputs, live);
      ListOutcome(clocks, acs[1..], first.seen, inputs, live);
      FirstTranslated(first.ac, rest);
      assert ([Translated(first.ac)] + AllTranslated(rest))[1..] == AllTranslated(rest);
      AllHoldNext(acs, live);
    }
  }

  lemma {:induction false} TranslatedNamesInputs(ac: Condition)
    ensures NamesInputs(Translated(ac))
  {
    match ac
    case Conjunction(args) =>
      forall i | 0 <= i < |args| ensures NamesInputs(Translated(args[i])) {
        TranslatedNamesInputs(args[i]);
      }
    case Disjunction(args) =>
      forall i | 0 <= i < |args| ensures NamesInputs(Translated(args[i])) {
        TranslatedNamesInputs(args[i]);
      }
    case Stream(_) =>
    case True =>
  }

  /** Whatever form is built of a condition that names inputs, it has the outcome of the general form. */
  lemma BuiltOutcome(ac: Condition, inputs: set<nat>)
    requires NamesInputs(ac) && !ac.True? && ac != Conjunction([])
    ensures NewCondition(ac).Ok? && EvalCondition(NewCondition(ac).value, inputs) == EvalGeneral(ac, inputs)
  {
    if ac.Conjunction? {
      forall i | 0 <= i < |ac.args| && ac.args[i].Stream? ensures ac.args[i].v.InRef? {
        assert NamesInputs(ac.args[i]);
      }
      if forall i | 0 <= i < |ac.args| :: ac.args[i].Stream? {
        assert OverInputs(ac);
        ConditionMeaning(ac, inputs);
        EvalGeneralMeaning(ac, inputs);
      }
    }
  }

  /**
   Exactly when the evaluator panics on a condition: it is always active if it has become `True`
   altogether; otherwise its evaluation panics exactly if the declared condition, evaluated from left
   to right on the live streams, reaches `True` or a name that was met before, and else it is what is
   declared. An empty conjunction cannot be built.
   */
  lemma ConditionForPanicsIff(clocks: seq<Condition>, ac: Condition, own: nat, inputs: set<nat>, live: iset<StreamRef>)
    requires Consistent(clocks, inputs, live)
    ensures var given := ConditionFor(clocks, ac, own);
            && (NewCondition(given).Panic? <==> given == Conjunction([]))
            && (NewCondition(given).Ok? ==>
                  EvalCondition(NewCondition(given).value, inputs)
                  == if given.True? then Ok(true)
                     else if ReachesAgain(clocks, ac, {own}, live) then Panic
                     else Ok(Holds(ac, live)))
  {
    var given := ConditionFor(clocks, ac, own);
    TranslatedNamesInputs(Normalize(clocks, ac, {own}).ac);
    GeneralOutcome(clocks, ac, {own}, inputs, live);
    if !given.True? && given != Conjunction([]) {
      BuiltOutcome(given, inputs);
    }
  }
}
