/** Clocks of streams: frequencies, their inference, and the check that a synchronous access is allowed. */
module Clocks {
  import opened Sequences
  import opened Values
  import opened Numbers
  import opened Rationals
  import opened Activations

  predicate Positive(r: Rat) { r.num > 0 && r.den > 0 }

  /** Whether one frequency is a multiple of another; the division by a zero frequency fails. */
  function IsMultipleOf(f: Rat, other: Rat): Option<bool>
    requires f.den > 0 && other.den > 0
  {
    if other.num == 0 then Nothing  // no frequency is less than zero
    else if f.num == 0 || f.num * other.den < other.num * f.den then Just(false)
    else Just(Quotient(f, other).den == 1)
  }

  lemma IsMultipleOfMeaning(f: Rat, other: Rat)
    requires Positive(f) && other.den > 0
    ensures IsMultipleOf(f, other) == if other.num == 0 then Nothing else Just(Measures(other, f))
  {
    if other.num > 0 {
      QuotientInteger(f, other);
      if k: nat :| IsMultiple(f, other, k) {
        ProductPositive(f.num, other.den);
        assert k * other.num * f.den == k * (other.num * f.den);
        if k > 0 {
          MulMonotone(1, k, other.num * f.den);
        }
      }
    }
  }

  /** The frequency inferred for a stream that accesses streams of two frequencies. */
  function FreqConjunction(f: Rat, other: Rat): Rat
    requires Positive(f) && Positive(other)
  {
    GcdDivides(f.num, other.num);
    LcmIsMultiple(f.den, other.den);
    NewRat(Gcd(f.num, other.num), Lcm(f.den, other.den))
  }

  /** Inference folds the conjunction over the accessed frequencies, starting with the first. */
  function InferredFreq(freqs: seq<Rat>): (r: Rat)
    requires freqs != [] && forall i | 0 <= i < |freqs| :: Positive(freqs[i])
    ensures Positive(r)
  {
    if |freqs| == 1 then freqs[0]
    else
      var before := InferredFreq(freqs[..|freqs| - 1]);
      var next := freqs[|freqs| - 1];
      assert Positive(next) by { assert next == freqs[|freqs| - 1]; }
      ConjunctionPositive(before, next);
      FreqConjunction(before, next)
  }

  lemma ConjunctionPositive(f: Rat, other: Rat)
    requires Positive(f) && Positive(other)
    ensures Positive(FreqConjunction(f, other))
  {
    GcdDivides(f.num, other.num);
    LcmIsMultiple(f.den, other.den);
    NewRatReduced(Gcd(f.num, other.num), Lcm(f.den, other.den));
  }

  /**
   The inferred frequency divides every accessed frequency, and every frequency that does
   divides it: it is the greatest one, whatever the order of the accesses.
   */
  lemma {:induction false} InferredFreqGreatest(freqs: seq<Rat>, c: Rat)
    requires freqs != [] && AllReduced(freqs) && Reduced(c)
    ensures Reduced(InferredFreq(freqs))
    ensures Measures(c, InferredFreq(freqs)) <==> forall i | 0 <= i < |freqs| :: Measures(c, freqs[i])
  {
    if |freqs| > 1 {
      var n := |freqs| - 1;
      assert AllReduced(freqs[..n]);
      InferredFreqGreatest(freqs[..n], c);
      RationalGcdShape(InferredFreq(freqs[..n]), freqs[n]);
      RationalGcdUniversal(InferredFreq(freqs[..n]), freqs[n], c);
      assert forall i | 0 <= i < n :: freqs[..n][i] == freqs[i];
    }
  }

  lemma InferredFreqOrder(freqs: seq<Rat>, others: seq<Rat>)
    requires freqs != [] && others != [] && AllReduced(freqs) && AllReduced(others)
    requires forall f :: f in freqs <==> f in others
    ensures InferredFreq(freqs) == InferredFreq(others)
  {
    InferredFreqMeasures(freqs, others);
    InferredFreqMeasures(others, freqs);
    MeasuresAntisymmetric(InferredFreq(freqs), InferredFreq(others));
  }

  lemma InferredFreqMeasures(freqs: seq<Rat>, others: seq<Rat>)
    requires freqs != [] && others != [] && AllReduced(freqs) && AllReduced(others)
    requires forall f | f in others :: f in freqs
    ensures Reduced(InferredFreq(freqs)) && Reduced(InferredFreq(others))
    ensures Measures(InferredFreq(freqs), InferredFreq(others))
  {
    InferredFreqGreatest(freqs, freqs[0]);
    var g := InferredFreq(freqs);
    InferredFreqGreatest(freqs, g);
    MeasuresReflexive(g);
    forall i | 0 <= i < |others| ensures Measures(g, others[i]) {
      assert others[i] in freqs;
    }
    InferredFreqGreatest(others, g);
  }

  /** The type of a stream describing its temporal behaviour. */
  datatype StreamTy<V> = Event(ac: Activation<V>) | RealTime(freq: Rat) | Infer

  /** Whether a stream of this type may access one of type `right` synchronously. */
  function IsValid<V(==)>(left: StreamTy<V>, right: StreamTy<V>): Option<bool>
    requires left.RealTime? ==> Positive(left.freq)
    requires right.RealTime? ==> Positive(right.freq)
  {
    if left.RealTime? && right.RealTime? then IsMultipleOf(right.freq, left.freq)
    else if left.Event? && right.Event? then Just(ImpliesValid(left.ac, right.ac))
    else Just(false)
  }

  /** Two streams of one clock may access each other; an event-driven and a periodic one may not. */
  lemma SameClockValid<V>(left: StreamTy<V>, right: StreamTy<V>)
    requires left.RealTime? ==> Positive(left.freq)
    requires right.RealTime? ==> Positive(right.freq)
    ensures left == right && !left.Infer? ==> IsValid(left, right) == Just(true)
    ensures left.Event? && right.Event? ==> (IsValid(left, right) == Just(true) <==> ImpliesValid(left.ac, right.ac))
    ensures left.Event? != right.Event? || left.Infer? || right.Infer? ==> IsValid(left, right) == Just(false)
  {
    if left == right && left.RealTime? {
      MeasuresReflexive(left.freq);
      IsMultipleOfMeaning(left.freq, left.freq);
    }
  }

  /** The period of a frequency. */
  function Period(freq: Rat): Rat {
    Rat(freq.den, freq.num)
  }

  /** An accepted access of event-driven streams: whenever the reader is active, so is its target. */
  lemma AcceptedEventAccess<V(!new)>(reader: StreamTy<V>, target: StreamTy<V>, live: iset<V>)
    requires reader.Event? && (target.RealTime? ==> Positive(target.freq))
    requires IsValid(reader, target) == Just(true) && Holds(reader.ac, live)
    ensures target.Event? && Holds(target.ac, live)
  {
    ImpliesValidSound(reader.ac, target.ac, live);
  }

  /** An accepted access of periodic streams: the period of the target measures that of the reader. */
  lemma AcceptedPeriodicAccess<V>(reader: StreamTy<V>, target: StreamTy<V>)
    requires reader.RealTime? && Positive(reader.freq)
    requires target.RealTime? ==> Positive(target.freq)
    ensures IsValid(reader, target) == Just(true) <==>
              target.RealTime? && Measures(Period(target.freq), Period(reader.freq))
  {
    if target.RealTime? {
      IsMultipleOfMeaning(target.freq, reader.freq);
      PeriodsMeasure(reader.freq, target.freq);
    }
  }

  lemma PeriodsMeasure(slow: Rat, fast: Rat)
    ensures Measures(slow, fast) <==> Measures(Period(fast), Period(slow))
  {
    if k: nat :| IsMultiple(fast, slow, k) {
      assert k * slow.num * fast.den == k * fast.den * slow.num;
      assert IsMultiple(Period(slow), Period(fast), k);
    }
    if k: nat :| IsMultiple(Period(slow), Period(fast), k) {
      assert k * slow.num * fast.den == k * fast.den * slow.num;
      assert IsMultiple(fast, slow, k);
    }
  }

  // ---------- simplification ----------

  /** Inserts before the first member that does not come before `ac`. */
  function Insert<V>(ac: Activation<V>, sorted: seq<Activation<V>>,
                     before: (Activation<V>, Activation<V>) -> bool): seq<Activation<V>> {
    if sorted == [] then [ac]
    else if before(sorted[0], ac) then [sorted[0]] + Insert(ac, sorted[1..], before)
    else [ac] + sorted
  }

  function Sort<V>(args: seq<Activation<V>>, before: (Activation<V>, Activation<V>) -> bool): seq<Activation<V>> {
    if args == [] then [] else Insert(args[0], Sort(args[1..], before), before)
  }

  /** Keeps the first of consecutive equal members. */
  function Dedup<V(==)>(args: seq<Activation<V>>): (r: seq<Activation<V>>)
    ensures r == [] <==> args == []
    ensures r != [] ==> r[0] == args[0]
    decreases |args|
  {
    if |args| < 2 then args
    else if args[0] == args[1] then Dedup(args[1..])
    else [args[0]] + Dedup(args[1..])
  }

  function Simplify<V(==)>(ty: StreamTy<V>, before: (Activation<V>, Activation<V>) -> bool): StreamTy<V> {
    match ty
    case Event(Conjunction(args)) => if args == [] then Event(True) else Event(Conjunction(Dedup(Sort(args, before))))
    case Event(Disjunction(args)) => Event(Disjunction(Dedup(Sort(args, before))))
    case _ => ty
  }

  lemma {:induction false} InsertMembers<V(!new)>(ac: Activation<V>, sorted: seq<Activation<V>>,
                                                  before: (Activation<V>, Activation<V>) -> bool)
    ensures forall x :: x in Insert(ac, sorted, before) <==> x == ac || x in sorted
    decreases |sorted|
  {
    if sorted != [] && before(sorted[0], ac) {
      InsertMembers(ac, sorted[1..], before);
      assert sorted == [sorted[0]] + sorted[1..];
    }
  }

  lemma {:induction false} SortMembers<V(!new)>(args: seq<Activation<V>>,
                                                before: (Activation<V>, Activation<V>) -> bool)
    ensures forall x :: x in Sort(args, before) <==> x in args
    decreases |args|
  {
    if args != [] {
      SortMembers(args[1..], before);
      InsertMembers(args[0], Sort(args[1..], before), before);
      assert args == [args[0]] + args[1..];
    }
  }

  lemma {:induction false} DedupMembers<V(!new)>(args: seq<Activation<V>>)
    ensures forall x :: x in Dedup(args) <==> x in args
    decreases |args|
  {
    if |args| >= 2 {
      DedupMembers(args[1..]);
      assert args == [args[0]] + args[1..];
    }
  }

  lemma SameMembers<V(!new)>(args: seq<Activation<V>>, before: (Activation<V>, Activation<V>) -> bool)
    ensures forall x :: x in args <==> x in Dedup(Sort(args, before))
  {
    SortMembers(args, before);
    DedupMembers(Sort(args, before));
    forall x ensures x in args <==> x in Dedup(Sort(args, before)) {
      assert x in Sort(args, before) <==> x in args;
    }
  }

  /** Simplification keeps the meaning of a condition, whatever order it sorts by. */
  lemma SimplifyMeaning<V(!new)>(ac: Activation<V>, before: (Activation<V>, Activation<V>) -> bool, live: iset<V>)
    ensures var simple := Simplify(Event(ac), before);
            simple.Event? && (Holds(simple.ac, live) <==> Holds(ac, live))
  {
    if ac.Conjunction? || ac.Disjunction? {
      SameMembers(ac.args, before);
      SameMembersMeaning(ac.args, Dedup(Sort(ac.args, before)), live);
    }
  }

  lemma SameMembersMeaning<V(!new)>(args: seq<Activation<V>>, others: seq<Activation<V>>, live: iset<V>)
    requires forall ac :: ac in args <==> ac in others
    ensures Holds(Conjunction(args), live) <==> Holds(Conjunction(others), live)
    ensures Holds(Disjunction(args), live) <==> Holds(Disjunction(others), live)
  {
    MembersMeaning(args, live);
    MembersMeaning(others, live);
  }

  /** `before` is the strict part of a total order. */
  ghost predicate StrictOrder<V(!new)>(before: (Activation<V>, Activation<V>) -> bool) {
    && (forall x :: !before(x, x))
    && (forall x, y, z :: before(x, y) && before(y, z) ==> before(x, z))
    && (forall x, y :: before(x, y) || before(y, x) || x == y)
  }

  ghost predicate Ordered<V>(s: seq<Activation<V>>, before: (Activation<V>, Activation<V>) -> bool) {
    forall i, j | 0 <= i < j < |s| :: before(s[i], s[j]) || s[i] == s[j]
  }

  lemma {:induction false} InsertOrdered<V(!new)>(ac: Activation<V>, sorted: seq<Activation<V>>,
                                                  before: (Activation<V>, Activation<V>) -> bool)
    requires StrictOrder(before) && Ordered(sorted, before)
    ensures Ordered(Insert(ac, sorted, before), before)
    decreases |sorted|
  {
    if sorted != [] && before(sorted[0], ac) {
      InsertOrdered(ac, sorted[1..], before);
      InsertMembers(ac, sorted[1..], before);
      var rest := Insert(ac, sorted[1..], before);
      forall i | 0 <= i < |rest| ensures before(sorted[0], rest[i]) || sorted[0] == rest[i] {
        assert rest[i] in rest;
        if rest[i] != ac {
          var j :| 0 <= j < |sorted[1..]| && sorted[1..][j] == rest[i];
          assert sorted[j + 1] == rest[i];
        }
      }
    } else if sorted != [] {
      forall i | 0 <= i < |sorted| ensures before(ac, sorted[i]) || ac == sorted[i] {
        assert i > 0 ==> before(sorted[0], sorted[i]) || sorted[0] == sorted[i];
      }
    }
  }

  lemma {:induction false} SortOrdered<V(!new)>(args: seq<Activation<V>>,
                                                before: (Activation<V>, Activation<V>) -> bool)
    requires StrictOrder(before)
    ensures Ordered(Sort(args, before), before)
    decreases |args|
  {
    if args != [] {
      SortOrdered(args[1..], before);
      InsertOrdered(args[0], Sort(args[1..], before), before);
    }
  }

  lemma FirstNotAgain<V(!new)>(args: seq<Activation<V>>, x: Activation<V>,
                               before: (Activation<V>, Activation<V>) -> bool)
    requires StrictOrder(before) && Ordered(args, before) && |args| >= 2 && args[0] != args[1] && x in args[1..]
    ensures x != args[0]
  {
    var j :| 0 <= j < |args| - 1 && args[1..][j] == x;
    assert args[j + 1] == x;
    assert before(args[0], args[1]);
    assert j > 0 ==> before(args[1], args[j + 1]) || args[1] == args[j + 1];
  }

  /** Of an ordered list, removing consecutive duplicates leaves every member once. */
  lemma {:induction false} DedupDistinct<V(!new)>(args: seq<Activation<V>>,
                                                  before: (Activation<V>, Activation<V>) -> bool)
    requires StrictOrder(before) && Ordered(args, before)
    ensures NoDuplicates(Dedup(args))
    decreases |args|
  {
    if |args| >= 2 {
      var rest := Dedup(args[1..]);
      DedupDistinct(args[1..], before);
      DedupMembers(args[1..]);
      if args[0] != args[1] {
        forall i | 0 <= i < |rest| ensures rest[i] != args[0] {
          assert rest[i] in rest;
          FirstNotAgain(args, rest[i], before);
        }
      }
    }
  }

  /** Sorted by a total order, a simplified condition holds every member once. */
  lemma SimplifyDistinct<V(!new)>(args: seq<Activation<V>>, before: (Activation<V>, Activation<V>) -> bool)
    requires StrictOrder(before)
    ensures NoDuplicates(Dedup(Sort(args, before)))
    ensures forall x :: x in args <==> x in Dedup(Sort(args, before))
  {
    SameMembers(args, before);
    SortOrdered(args, before);
    DedupDistinct(Sort(args, before), before);
  }

  lemma MembersMeaning<V(!new)>(args: seq<Activation<V>>, live: iset<V>)
    ensures Holds(Conjunction(args), live) <==> forall ac | ac in args :: Holds(ac, live)
    ensures Holds(Disjunction(args), live) <==> exists ac :: ac in args && Holds(ac, live)
  {
    var conj, disj := Conjunction(args), Disjunction(args);
    assert conj.args == args && disj.args == args && forall i | 0 <= i < |args| :: args[i] in args;
    if Holds(conj, live) {
      forall ac | ac in args ensures Holds(ac, live) {
        var i :| 0 <= i < |args| && args[i] == ac;
      }
    }
    if ac :| ac in args && Holds(ac, live) {
      var i :| 0 <= i < |args| && args[i] == ac;
      assert Holds(disj.args[i], live);
    }
    if Holds(disj, live) {
      var i :| 0 <= i < |args| && Holds(args[i], live);
      assert args[i] in args;
    }
  }
}
