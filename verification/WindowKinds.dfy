/** The windows of each aggregation and number type: how they are built, and what they report. */
module WindowKinds {
  import opened Values
  import opened Expressions
  import opened WindowLogs
  import opened Windows
  import opened WindowRuns
  import opened SpecWindows
  import opened Aggregations
  import opened TypedRuns
  import opened TypedWindows
  import M = Evaluator
  import Histories

  datatype WindowOperation = CountOp | MinOp | MaxOp | SumOp | ProductOp | AverageOp | IntegralOp | ConjunctionOp
                           | DisjunctionOp

  // ---------- numbers ----------

  function PlusNat(): (nat, nat) -> nat { (a, b) => a + b }
  function PlusInt(): (int, int) -> int { (a, b) => a + b }
  function PlusReal(): (real, real) -> real { (a, b) => a + b }

  function NatReader(): Reader<nat> { v => ReadNat(v) }
  function IntReader(): Reader<int> { v => ReadSigned(v) }
  function RealReader(): Reader<real> { v => ReadFloat(v) }

  /** Minimum and maximum keep values of their own type only. */
  function SignedReader(): Reader<int> { (v: Value) => if v.Signed? then Ok(v.i) else Panic }
  function FloatReader(): Reader<real> { (v: Value) => if v.Float? then Ok(v.f) else Panic }

  function WriteNat(): nat -> Value { (n: nat) => Unsigned(n) }
  function WriteInt(): int -> Value { i => Signed(i) }
  function WriteReal(): real -> Value { r => Float(r) }

  function DivideNat(): (nat, nat) -> Value { (sum: nat, n: nat) => if n == 0 then Value.None else Unsigned(sum / n) }

  /** Division of signed numbers truncates towards zero. */
  function Quotient(sum: int, n: nat): int
    requires n > 0
  {
    if sum >= 0 then sum / n else -(-sum / n)
  }

  function DivideInt(): (int, nat) -> Value {
    (sum: int, n: nat) => if n == 0 then Value.None else Signed(Quotient(sum, n))
  }

  function DivideReal(): (real, nat) -> Value {
    (sum: real, n: nat) => if n == 0 then Value.None else Float(sum / (n as real))
  }

  function PickMinNat(): (nat, nat) -> nat { (a, b) => if b < a then b else a }
  function PickMaxNat(): (nat, nat) -> nat { (a, b) => if b > a then b else a }
  function PickMinInt(): (int, int) -> int { (a, b) => MinInt(a, b) }
  function PickMaxInt(): (int, int) -> int { (a, b) => MaxInt(a, b) }
  function PickMinReal(): (real, real) -> real { (a, b) => MinReal(a, b) }
  function PickMaxReal(): (real, real) -> real { (a, b) => MaxReal(a, b) }

  /** A duration in seconds, as the integral computes it: the rest is divided by 10^8. */
  function CodedSeconds(): nat -> real {
    (d: nat) => (d / 1_000_000_000) as real + (d % 1_000_000_000) as real / 100_000_000.0
  }

  function Seconds(): nat -> real {
    (d: nat) => d as real / 1_000_000_000.0
  }

  // ---------- construction ----------

  function SumUnsigned(): Summary<Outcome<nat>> { Sum<nat>(0, PlusNat(), NatReader(), WriteNat()) }
  function SumSigned(): Summary<Outcome<int>> { Sum<int>(0, PlusInt(), IntReader(), WriteInt()) }
  function SumFloat(): Summary<Outcome<real>> { Sum<real>(0.0, PlusReal(), RealReader(), WriteReal()) }

  function AvgUnsigned(): Summary<Outcome<AvgIV<nat>>> { Avg<nat>(PlusNat(), NatReader(), DivideNat()) }
  function AvgSigned(): Summary<Outcome<AvgIV<int>>> { Avg<int>(PlusInt(), IntReader(), DivideInt()) }
  function AvgFloat(): Summary<Outcome<AvgIV<real>>> { Avg<real>(PlusReal(), RealReader(), DivideReal()) }

  function ExtremumUnsigned(pick: (nat, nat) -> nat): Summary<Outcome<Option<nat>>> {
    Extremum<nat>(pick, NatReader(), WriteNat())
  }

  function ExtremumSigned(pick: (int, int) -> int): Summary<Outcome<Option<int>>> {
    Extremum<int>(pick, SignedReader(), WriteInt())
  }

  function ExtremumFloat(pick: (real, real) -> real): Summary<Outcome<Option<real>>> {
    Extremum<real>(pick, FloatReader(), WriteReal())
  }

  /**
   The window for an aggregation with a result type; where the result may be missing, for the type
   without. Products, and sums of Booleans, are not implemented.
   */
  function NewWindow(target: StreamRef, op: WindowOperation, ty: Type, duration: nat,
                     wait: bool): Outcome<M.SlidingWindow>
    decreases ty
  {
    match (op, ty)
    case (CountOp, _) => Ok(WindowOver(target, Count(), duration, wait))
    case (IntegralOp, _) => Ok(WindowOver(target, IntegralOf(CodedSeconds()), duration, wait))
    case (MinOp, UIntT) => Ok(WindowOver(target, ExtremumUnsigned(PickMinNat()), duration, wait))
    case (MinOp, IntT) => Ok(WindowOver(target, ExtremumSigned(PickMinInt()), duration, wait))
    case (MinOp, FloatT) => Ok(WindowOver(target, ExtremumFloat(PickMinReal()), duration, wait))
    case (MaxOp, UIntT) => Ok(WindowOver(target, ExtremumUnsigned(PickMaxNat()), duration, wait))
    case (MaxOp, IntT) => Ok(WindowOver(target, ExtremumSigned(PickMaxInt()), duration, wait))
    case (MaxOp, FloatT) => Ok(WindowOver(target, ExtremumFloat(PickMaxReal()), duration, wait))
    case (SumOp, UIntT) => Ok(WindowOver(target, SumUnsigned(), duration, wait))
    case (SumOp, IntT) => Ok(WindowOver(target, SumSigned(), duration, wait))
    case (SumOp, FloatT) => Ok(WindowOver(target, SumFloat(), duration, wait))
    case (AverageOp, UIntT) => Ok(WindowOver(target, AvgUnsigned(), duration, wait))
    case (AverageOp, IntT) => Ok(WindowOver(target, AvgSigned(), duration, wait))
    case (AverageOp, FloatT) => Ok(WindowOver(target, AvgFloat(), duration, wait))
    case (ConjunctionOp, BoolT) => Ok(WindowOver(target, Conj(), duration, wait))
    case (DisjunctionOp, BoolT) => Ok(WindowOver(target, Disj(), duration, wait))
    case (_, OptionT(t)) => NewWindow(target, op, t, duration, wait)
    case _ => Panic
  }

  // ---------- what is summed ----------

  function IntOf(v: Value): int {
    match v
    case Unsigned(u) => u
    case Signed(i) => i
    case _ => 0
  }

  function SumOfInts(xs: seq<Sample>): int {
    if xs == [] then 0 else SumOfInts(xs[..|xs| - 1]) + IntOf(xs[|xs| - 1].v)
  }

  function SumOfReals(xs: seq<Sample>): real {
    if xs == [] then 0.0 else SumOfReals(xs[..|xs| - 1]) + NumberOf(xs[|xs| - 1].v)
  }

  lemma {:induction false} TotalUnsigned(xs: seq<Sample>)
    requires TypedSamples(xs, UIntT)
    ensures Readable(NatReader(), xs) && Total<nat>(0, PlusNat(), NatReader(), xs) == SumOfInts(xs)
  {
    if xs != [] {
      TotalUnsigned(xs[..|xs| - 1]);
    }
  }

  lemma {:induction false} TotalSigned(xs: seq<Sample>)
    requires TypedSamples(xs, IntT)
    ensures Readable(IntReader(), xs) && Total<int>(0, PlusInt(), IntReader(), xs) == SumOfInts(xs)
  {
    if xs != [] {
      TotalSigned(xs[..|xs| - 1]);
    }
  }

  lemma {:induction false} TotalFloat(xs: seq<Sample>)
    requires TypedSamples(xs, FloatT)
    ensures Readable(RealReader(), xs) && Total<real>(0.0, PlusReal(), RealReader(), xs) == SumOfReals(xs)
  {
    if xs != [] {
      TotalFloat(xs[..|xs| - 1]);
    }
  }

  // ---------- what the windows report ----------

  /** The whole number nearest to the quotient of `sum` by `n` that is not further from zero. */
  ghost predicate IsAverage(q: int, sum: int, n: nat) {
    if sum >= 0 then q >= 0 && q * n <= sum < (q + 1) * n else q <= 0 && (q - 1) * n < sum <= q * n
  }

  lemma DivisionIsAverage(m: nat, n: nat)
    requires n > 0
    ensures m / n * n <= m < (m / n + 1) * n
  {
    var q := m / n;
    assert m == q * n + m % n;
    assert (q + 1) * n == q * n + n;
  }

  lemma QuotientIsAverage(sum: int, n: nat)
    requires n > 0
    ensures IsAverage(Quotient(sum, n), sum, n)
  {
    if sum >= 0 {
      DivisionIsAverage(sum, n);
    } else {
      var q := -sum / n;
      DivisionIsAverage(-sum, n);
      assert (-q) * n == -(q * n) && (-q - 1) * n == -((q + 1) * n);
    }
  }

  /** One of the values in range, which none of them is below, or above. */
  ghost predicate IsExtremum(v: Value, xs: seq<Sample>, least: bool) {
    && (exists i :: 0 <= i < |xs| && xs[i].v == v)
    && forall i | 0 <= i < |xs| :: if least then NumberOf(v) <= NumberOf(xs[i].v) else NumberOf(v) >= NumberOf(xs[i].v)
  }

  /** What a sum over the samples is, for the type of its values. */
  ghost predicate IsSum(v: Value, xs: seq<Sample>, ty: Type) {
    match ty
    case UIntT => v.Unsigned? && v.u == SumOfInts(xs)
    case IntT => v == Signed(SumOfInts(xs))
    case FloatT => v == Float(SumOfReals(xs))
    case _ => false
  }

  ghost predicate IsMean(v: Value, xs: seq<Sample>, ty: Type) {
    if xs == [] then v == Value.None else
    match ty
    case UIntT => v.Unsigned? && IsAverage(v.u, SumOfInts(xs), |xs|)
    case IntT => v.Signed? && IsAverage(v.i, SumOfInts(xs), |xs|)
    case FloatT => v.Float? && v.f * (|xs| as real) == SumOfReals(xs)
    case _ => false
  }

  /** What the aggregation means for samples of a type. */
  ghost predicate Answers(op: WindowOperation, ty: Type, xs: seq<Sample>, v: Value) {
    match op
    case CountOp => v == Unsigned(|xs|)
    case SumOp => IsSum(v, xs, ty)
    case AverageOp => IsMean(v, xs, ty)
    case MinOp => if xs == [] then v == Value.None else IsExtremum(v, xs, true)
    case MaxOp => if xs == [] then v == Value.None else IsExtremum(v, xs, false)
    case ConjunctionOp => v.Bool? && (v.b <==> forall i | 0 <= i < |xs| :: xs[i].v == Bool(true))
    case DisjunctionOp => v.Bool? && (v.b <==> exists i :: 0 <= i < |xs| && xs[i].v == Bool(true))
    case IntegralOp => TimeOrdered(xs) && Readable(v => ReadFloat(v), xs) && v == Float(Trapezoids(CodedSeconds(), xs))
    case ProductOp => false
  }

  ghost predicate Answered(op: WindowOperation, ty: Type, xs: seq<Sample>, v: Outcome<Value>) {
    v.Ok? && Answers(op, ty, xs, v.value)
  }

  /** The types of values for which the aggregation is built. */
  predicate Implemented(op: WindowOperation, ty: Type) {
    match op
    case CountOp => true
    case IntegralOp => true
    case ProductOp => false
    case ConjunctionOp => ty.BoolT?
    case DisjunctionOp => ty.BoolT?
    case _ => ty in {UIntT, IntT, FloatT}
  }

  function Inner(ty: Type): (r: Type)
    ensures !r.OptionT?
  {
    if ty.OptionT? then Inner(ty.ty) else ty
  }

  lemma SumsReported(target: StreamRef, duration: nat, wait: bool, h: seq<Sample>, ts: Time,
                     ty: Type)
    requires !(wait && ts < duration) && ty in {UIntT, IntT, FloatT} && TypedSamples(InRange(duration, h, ts), ty)
    ensures var w := NewWindow(target, SumOp, ty, duration, wait);
            w.Ok? && Answered(SumOp, ty, InRange(duration, h, ts), w.value.value(h, ts))
  {
    var xs := InRange(duration, h, ts);
    match ty
    case UIntT =>
      TotalUnsigned(xs);
      SumReports<nat>(0, PlusNat(), NatReader(), WriteNat(), duration, wait, h, ts);
    case IntT =>
      TotalSigned(xs);
      SumReports<int>(0, PlusInt(), IntReader(), WriteInt(), duration, wait, h, ts);
    case FloatT =>
      TotalFloat(xs);
      SumReports<real>(0.0, PlusReal(), RealReader(), WriteReal(), duration, wait, h, ts);
  }

  lemma MeansReported(target: StreamRef, duration: nat, wait: bool, h: seq<Sample>, ts: Time, ty: Type)
    requires !(wait && ts < duration) && ty in {UIntT, IntT, FloatT} && TypedSamples(InRange(duration, h, ts), ty)
    ensures var w := NewWindow(target, AverageOp, ty, duration, wait);
            w.Ok? && Answered(AverageOp, ty, InRange(duration, h, ts), w.value.value(h, ts))
  {
    var xs := InRange(duration, h, ts);
    match ty
    case UIntT => MeanOfUnsigned(duration, wait, h, ts, xs);
    case IntT => MeanOfSigned(duration, wait, h, ts, xs);
    case FloatT => MeanOfFloats(duration, wait, h, ts, xs);
  }

  lemma MeanOfUnsigned(duration: nat, wait: bool, h: seq<Sample>, ts: Time, xs: seq<Sample>)
    requires !(wait && ts < duration) && xs == InRange(duration, h, ts) && TypedSamples(xs, UIntT)
    ensures var v := WindowValue(AvgUnsigned(), duration, wait, 0, h, ts);
            v.Ok? && IsMean(v.value, xs, UIntT)
  {
    TotalUnsigned(xs);
    AvgReports<nat>(0, PlusNat(), NatReader(), DivideNat(), duration, wait, h, ts);
    if xs != [] {
      DivisionIsAverage(SumOfInts(xs), |xs|);
    }
  }

  lemma MeanOfSigned(duration: nat, wait: bool, h: seq<Sample>, ts: Time, xs: seq<Sample>)
    requires !(wait && ts < duration) && xs == InRange(duration, h, ts) && TypedSamples(xs, IntT)
    ensures var v := WindowValue(AvgSigned(), duration, wait, 0, h, ts);
            v.Ok? && IsMean(v.value, xs, IntT)
  {
    TotalSigned(xs);
    AvgReports<int>(0, PlusInt(), IntReader(), DivideInt(), duration, wait, h, ts);
    if xs != [] {
      QuotientIsAverage(SumOfInts(xs), |xs|);
    }
  }

  lemma MeanOfFloats(duration: nat, wait: bool, h: seq<Sample>, ts: Time, xs: seq<Sample>)
    requires !(wait && ts < duration) && xs == InRange(duration, h, ts) && TypedSamples(xs, FloatT)
    ensures var v := WindowValue(AvgFloat(), duration, wait, 0, h, ts);
            v.Ok? && IsMean(v.value, xs, FloatT)
  {
    TotalFloat(xs);
    AvgReports<real>(0.0, PlusReal(), RealReader(), DivideReal(), duration, wait, h, ts);
  }

  // ---------- minimum and maximum ----------

  function IntBefore(least: bool): (int, int) -> bool { (a: int, b: int) => if least then a <= b else a >= b }
  function NatBefore(least: bool): (nat, nat) -> bool { (a: nat, b: nat) => if least then a <= b else a >= b }
  function RealBefore(least: bool): (real, real) -> bool { (a: real, b: real) => if least then a <= b else a >= b }

  function PickNat(least: bool): (nat, nat) -> nat { if least then PickMinNat() else PickMaxNat() }
  function PickInt(least: bool): (int, int) -> int { if least then PickMinInt() else PickMaxInt() }
  function PickReal(least: bool): (real, real) -> real { if least then PickMinReal() else PickMaxReal() }

  lemma NatPicks(least: bool)
    ensures Picks(PickNat(least), NatBefore(least)) && Associative(PickNat(least))
  {
  }

  lemma IntPicks(least: bool)
    ensures Picks(PickInt(least), IntBefore(least)) && Associative(PickInt(least))
  {
  }

  lemma RealPicks(least: bool)
    ensures Picks(PickReal(least), RealBefore(least)) && Associative(PickReal(least))
  {
  }

  /** An unbeaten sample is the least, or the greatest, of those in range. */
  lemma UnbeatenIsExtremum<N>(before: (N, N) -> bool, read: Reader<N>, write: N -> Value, xs: seq<Sample>,
                              v: Outcome<Value>, least: bool)
    requires Readable(read, xs) && Unbeaten(before, read, write, xs, v)
    requires forall i | 0 <= i < |xs| :: write(read(xs[i].v).value) == xs[i].v
    requires forall i, j | 0 <= i < |xs| && 0 <= j < |xs| && before(read(xs[i].v).value, read(xs[j].v).value) ::
               if least then NumberOf(xs[i].v) <= NumberOf(xs[j].v) else NumberOf(xs[i].v) >= NumberOf(xs[j].v)
    ensures v.Ok? && IsExtremum(v.value, xs, least)
  {
    var i :| 0 <= i < |xs| && v == Ok(write(read(xs[i].v).value))
             && forall j | 0 <= j < |xs| :: before(read(xs[i].v).value, read(xs[j].v).value);
    assert xs[i].v == v.value;
  }

  ghost predicate ExtremumReported(xs: seq<Sample>, v: Outcome<Value>, least: bool) {
    v.Ok? && if xs == [] then v.value == Value.None else IsExtremum(v.value, xs, least)
  }

  lemma ExtremumOfUnsigned(duration: nat, wait: bool, h: seq<Sample>, ts: Time, xs: seq<Sample>, least: bool)
    requires !(wait && ts < duration) && xs == InRange(duration, h, ts) && TypedSamples(xs, UIntT)
    ensures ExtremumReported(xs, WindowValue(ExtremumUnsigned(PickNat(least)), duration, wait, 0, h, ts), least)
  {
    NatPicks(least);
    ExtremumReports<nat>(PickNat(least), NatBefore(least), NatReader(), WriteNat(), duration, wait, h, ts);
    if xs != [] {
      UnbeatenIsExtremum<nat>(NatBefore(least), NatReader(), WriteNat(), xs,
                              WindowValue(ExtremumUnsigned(PickNat(least)), duration, wait, 0, h, ts), least);
    }
  }

  lemma ExtremumOfSigned(duration: nat, wait: bool, h: seq<Sample>, ts: Time, xs: seq<Sample>, least: bool)
    requires !(wait && ts < duration) && xs == InRange(duration, h, ts) && TypedSamples(xs, IntT)
    ensures ExtremumReported(xs, WindowValue(ExtremumSigned(PickInt(least)), duration, wait, 0, h, ts), least)
  {
    IntPicks(least);
    ExtremumReports<int>(PickInt(least), IntBefore(least), SignedReader(), WriteInt(), duration, wait, h, ts);
    if xs != [] {
      UnbeatenIsExtremum<int>(IntBefore(least), SignedReader(), WriteInt(), xs,
                              WindowValue(ExtremumSigned(PickInt(least)), duration, wait, 0, h, ts), least);
    }
  }

  lemma ExtremumOfFloats(duration: nat, wait: bool, h: seq<Sample>, ts: Time, xs: seq<Sample>, least: bool)
    requires !(wait && ts < duration) && xs == InRange(duration, h, ts) && TypedSamples(xs, FloatT)
    ensures ExtremumReported(xs, WindowValue(ExtremumFloat(PickReal(least)), duration, wait, 0, h, ts), least)
  {
    RealPicks(least);
    ExtremumReports<real>(PickReal(least), RealBefore(least), FloatReader(), WriteReal(), duration, wait, h, ts);
    if xs != [] {
      UnbeatenIsExtremum<real>(RealBefore(least), FloatReader(), WriteReal(), xs,
                               WindowValue(ExtremumFloat(PickReal(least)), duration, wait, 0, h, ts), least);
    }
  }

  lemma ExtremaReported(target: StreamRef, op: WindowOperation, duration: nat, wait: bool, h: seq<Sample>, ts: Time,
                        ty: Type)
    requires op in {MinOp, MaxOp}
    requires !(wait && ts < duration) && ty in {UIntT, IntT, FloatT} && TypedSamples(InRange(duration, h, ts), ty)
    ensures var w := NewWindow(target, op, ty, duration, wait);
            w.Ok? && Answered(op, ty, InRange(duration, h, ts), w.value.value(h, ts))
  {
    var xs := InRange(duration, h, ts);
    match ty
    case UIntT => ExtremumOfUnsigned(duration, wait, h, ts, xs, op.MinOp?);
    case IntT => ExtremumOfSigned(duration, wait, h, ts, xs, op.MinOp?);
    case FloatT => ExtremumOfFloats(duration, wait, h, ts, xs, op.MinOp?);
  }

  // ---------- the other aggregations ----------

  lemma BooleansReported(target: StreamRef, op: WindowOperation, duration: nat, wait: bool, h: seq<Sample>, ts: Time)
    requires op in {ConjunctionOp, DisjunctionOp}
    requires !(wait && ts < duration) && TypedSamples(InRange(duration, h, ts), BoolT)
    ensures var w := NewWindow(target, op, BoolT, duration, wait);
            w.Ok? && Answered(op, BoolT, InRange(duration, h, ts), w.value.value(h, ts))
  {
    var xs := InRange(duration, h, ts);
    assert forall i | 0 <= i < |xs| :: xs[i].v.b <==> xs[i].v == Bool(true);
    match op
    case ConjunctionOp => ConjMeaning(ts, xs);
    case DisjunctionOp => DisjMeaning(ts, xs);
  }

  lemma IntegralReported(target: StreamRef, ty: Type, duration: nat, wait: bool, h: seq<Sample>, ts: Time)
    requires !(wait && ts < duration)
    requires var xs := InRange(duration, h, ts); TimeOrdered(xs) && Readable(v => ReadFloat(v), xs)
    ensures var w := NewWindow(target, IntegralOp, ty, duration, wait);
            w.Ok? && Answered(IntegralOp, ty, InRange(duration, h, ts), w.value.value(h, ts))
  {
    IntegralMeaning(CodedSeconds(), ts, InRange(duration, h, ts));
  }

  // ---------- every window ----------

  /** What the frontend requires of the values of the target. */
  predicate Accepts(op: WindowOperation, ty: Type, produced: Type) {
    match op
    case CountOp => true
    case IntegralOp => Numeric(produced)
    case _ => produced == Inner(ty)
  }

  /** Only these windows can be built; a type that may have no value counts as the one without. */
  lemma {:induction false} NewWindowIff(target: StreamRef, op: WindowOperation, ty: Type, duration: nat, wait: bool)
    ensures NewWindow(target, op, ty, duration, wait).Ok? <==> Implemented(op, Inner(ty))
    ensures Implemented(op, Inner(ty)) ==>
              NewWindow(target, op, ty, duration, wait) == NewWindow(target, op, Inner(ty), duration, wait)
    decreases ty
  {
    if ty.OptionT? {
      NewWindowIff(target, op, ty.ty, duration, wait);
    } else {
      PlainWindowIff(target, op, ty, duration, wait);
    }
  }

  lemma PlainWindowIff(target: StreamRef, op: WindowOperation, ty: Type, duration: nat, wait: bool)
    requires !ty.OptionT?
    ensures NewWindow(target, op, ty, duration, wait).Ok? <==> Implemented(op, ty)
  {
    if op in {MinOp, MaxOp} {
      PlainExtremumIff(target, op, ty, duration, wait);
    } else if op in {SumOp, AverageOp, ProductOp} {
      PlainTotalIff(target, op, ty, duration, wait);
    }
  }

  lemma PlainExtremumIff(target: StreamRef, op: WindowOperation, ty: Type, duration: nat, wait: bool)
    requires !ty.OptionT? && op in {MinOp, MaxOp}
    ensures NewWindow(target, op, ty, duration, wait).Ok? <==> Implemented(op, ty)
  {
  }

  lemma PlainTotalIff(target: StreamRef, op: WindowOperation, ty: Type, duration: nat, wait: bool)
    requires !ty.OptionT? && op in {SumOp, AverageOp, ProductOp}
    ensures NewWindow(target, op, ty, duration, wait).Ok? <==> Implemented(op, ty)
  {
  }

  lemma NumbersReadable(xs: seq<Sample>, produced: Type)
    requires TypedSamples(xs, produced) && Numeric(produced)
    ensures Readable(v => ReadFloat(v), xs)
  {
  }

  /** What every window says of typed samples in time order. */
  lemma WindowMeaning(target: StreamRef, op: WindowOperation, ty: Type, produced: Type, duration: nat, wait: bool,
                      h: seq<Sample>, ts: Time)
    requires Implemented(op, Inner(ty)) && Accepts(op, ty, produced) && TimeOrdered(h) && TypedSamples(h, produced)
    ensures var w := NewWindow(target, op, ty, duration, wait);
            && w.Ok?
            && (wait && ts < duration ==> w.value.value(h, ts) == Ok(Value.None))
            && (!(wait && ts < duration) ==>
                  Answered(op, Inner(ty), InRange(duration, h, ts), w.value.value(h, ts)))
  {
    NewWindowIff(target, op, ty, duration, wait);
    if wait && ts < duration {
      BuiltWaits(target, op, Inner(ty), duration, h, ts);
    } else {
      var current := BucketNumber(0, duration / SIZE, ts);
      BetweenTyped(0, duration / SIZE, h, current - (SIZE - 1), current, produced);
      BuiltAnswers(target, op, Inner(ty), produced, duration, wait, h, ts);
    }
  }

  lemma BuiltWaits(target: StreamRef, op: WindowOperation, ty: Type, duration: nat, h: seq<Sample>, ts: Time)
    requires Implemented(op, ty) && ts < duration
    ensures var w := NewWindow(target, op, ty, duration, true); w.Ok? && w.value.value(h, ts) == Ok(Value.None)
  {
    if op in {MinOp, MaxOp} {
      ExtremumWaits(target, op, ty, duration, h, ts);
    } else if op in {SumOp, AverageOp} {
      TotalWaits(target, op, ty, duration, h, ts);
    } else {
      OtherWaits(target, op, ty, duration, h, ts);
    }
  }

  lemma ExtremumWaits(target: StreamRef, op: WindowOperation, ty: Type, duration: nat, h: seq<Sample>, ts: Time)
    requires op in {MinOp, MaxOp} && Implemented(op, ty) && ts < duration
    ensures var w := NewWindow(target, op, ty, duration, true); w.Ok? && w.value.value(h, ts) == Ok(Value.None)
  {
  }

  lemma TotalWaits(target: StreamRef, op: WindowOperation, ty: Type, duration: nat, h: seq<Sample>, ts: Time)
    requires op in {SumOp, AverageOp} && Implemented(op, ty) && ts < duration
    ensures var w := NewWindow(target, op, ty, duration, true); w.Ok? && w.value.value(h, ts) == Ok(Value.None)
  {
  }

  lemma OtherWaits(target: StreamRef, op: WindowOperation, ty: Type, duration: nat, h: seq<Sample>, ts: Time)
    requires op !in {MinOp, MaxOp, SumOp, AverageOp} && Implemented(op, ty) && ts < duration
    ensures var w := NewWindow(target, op, ty, duration, true); w.Ok? && w.value.value(h, ts) == Ok(Value.None)
  {
  }

  lemma BuiltAnswers(target: StreamRef, op: WindowOperation, ty: Type, produced: Type, duration: nat, wait: bool,
                     h: seq<Sample>, ts: Time)
    requires Implemented(op, ty) && !(wait && ts < duration)
    requires TimeOrdered(InRange(duration, h, ts)) && TypedSamples(InRange(duration, h, ts), produced)
    requires !ty.OptionT? && Accepts(op, ty, produced)
    ensures var w := NewWindow(target, op, ty, duration, wait);
            w.Ok? && Answered(op, ty, InRange(duration, h, ts), w.value.value(h, ts))
  {
    match op
    case CountOp => CountMeaning(ts, InRange(duration, h, ts));
    case SumOp => SumsReported(target, duration, wait, h, ts, ty);
    case AverageOp => MeansReported(target, duration, wait, h, ts, ty);
    case MinOp => ExtremaReported(target, op, duration, wait, h, ts, ty);
    case MaxOp => ExtremaReported(target, op, duration, wait, h, ts, ty);
    case ConjunctionOp => BooleansReported(target, op, duration, wait, h, ts);
    case DisjunctionOp => BooleansReported(target, op, duration, wait, h, ts);
    case IntegralOp =>
      NumbersReadable(InRange(duration, h, ts), produced);
      IntegralReported(target, ty, duration, wait, h, ts);
  }

  // ---------- their deques ----------

  lemma NumbersAssociative()
    ensures Associative(PlusNat()) && Associative(PlusInt()) && Associative(PlusReal())
    ensures (forall a :: PlusNat()(a, 0) == a) && (forall a :: PlusInt()(a, 0) == a)
    ensures forall a :: PlusReal()(a, 0.0) == a
  {
  }

  /** The deque of every window is faithful. */
  lemma {:induction false} WindowFaithful(target: StreamRef, op: WindowOperation, ty: Type, duration: nat, wait: bool)
    requires Implemented(op, Inner(ty))
    ensures var w := NewWindow(target, op, ty, duration, wait); w.Ok? && M.Faithful(w.value)
  {
    NewWindowIff(target, op, ty, duration, wait);
    match op
    case CountOp =>
      CountLawful();
      DequeIsFaithful(target, Count(), duration, wait);
    case SumOp => SumFaithful(target, Inner(ty), duration, wait);
    case AverageOp => AvgFaithful(target, Inner(ty), duration, wait);
    case MinOp => ExtremumFaithful(target, op, Inner(ty), duration, wait);
    case MaxOp => ExtremumFaithful(target, op, Inner(ty), duration, wait);
    case ConjunctionOp =>
      SumLawful(true, (a, b) => a && b, v => ReadBool(v), b => Bool(b));
      DequeIsFaithful(target, Conj(), duration, wait);
    case DisjunctionOp =>
      SumLawful(false, (a, b) => a || b, v => ReadBool(v), b => Bool(b));
      DequeIsFaithful(target, Disj(), duration, wait);
    case IntegralOp =>
      IntegralLawful(CodedSeconds());
      DequeIsFaithful(target, IntegralOf(CodedSeconds()), duration, wait);
  }

  lemma SumFaithful(target: StreamRef, ty: Type, duration: nat, wait: bool)
    requires Implemented(SumOp, ty)
    ensures var w := NewWindow(target, SumOp, ty, duration, wait); w.Ok? && M.Faithful(w.value)
  {
    NumbersAssociative();
    match ty
    case UIntT =>
      SumLawful<nat>(0, PlusNat(), NatReader(), WriteNat());
      DequeIsFaithful(target, SumUnsigned(), duration, wait);
    case IntT =>
      SumLawful<int>(0, PlusInt(), IntReader(), WriteInt());
      DequeIsFaithful(target, SumSigned(), duration, wait);
    case FloatT =>
      SumLawful<real>(0.0, PlusReal(), RealReader(), WriteReal());
      DequeIsFaithful(target, SumFloat(), duration, wait);
  }

  lemma AvgFaithful(target: StreamRef, ty: Type, duration: nat, wait: bool)
    requires Implemented(AverageOp, ty)
    ensures var w := NewWindow(target, AverageOp, ty, duration, wait); w.Ok? && M.Faithful(w.value)
  {
    NumbersAssociative();
    match ty
    case UIntT =>
      AvgLawful<nat>(PlusNat(), NatReader(), DivideNat());
      DequeIsFaithful(target, AvgUnsigned(), duration, wait);
    case IntT =>
      AvgLawful<int>(PlusInt(), IntReader(), DivideInt());
      DequeIsFaithful(target, AvgSigned(), duration, wait);
    case FloatT =>
      AvgLawful<real>(PlusReal(), RealReader(), DivideReal());
      DequeIsFaithful(target, AvgFloat(), duration, wait);
  }

  lemma ExtremumFaithful(target: StreamRef, op: WindowOperation, ty: Type, duration: nat, wait: bool)
    requires op in {MinOp, MaxOp} && Implemented(op, ty)
    ensures var w := NewWindow(target, op, ty, duration, wait); w.Ok? && M.Faithful(w.value)
  {
    match ty
    case UIntT =>
      NatPicks(op.MinOp?);
      ExtremumLawful<nat>(PickNat(op.MinOp?), NatReader(), WriteNat());
      DequeIsFaithful(target, ExtremumUnsigned(PickNat(op.MinOp?)), duration, wait);
    case IntT =>
      IntPicks(op.MinOp?);
      ExtremumLawful<int>(PickInt(op.MinOp?), SignedReader(), WriteInt());
      DequeIsFaithful(target, ExtremumSigned(PickInt(op.MinOp?)), duration, wait);
    case FloatT =>
      RealPicks(op.MinOp?);
      ExtremumLawful<real>(PickReal(op.MinOp?), FloatReader(), WriteReal());
      DequeIsFaithful(target, ExtremumFloat(PickReal(op.MinOp?)), duration, wait);
  }

  /**
   In every run, the deque of a window reports what its aggregation means for the values, in the last
   64 buckets, of the stream that informs it; and no value while it waits.
   */
  lemma RunReports(spec: M.Spec, st: M.State, t: Histories.Trace, w: nat, op: WindowOperation, ty: Type,
                   produced: Type, duration: nat, wait: bool)
    requires Histories.Holding(spec, st, t) && t != [] && w < |spec.windows|
    requires NewWindow(spec.windows[w].target, op, ty, duration, wait) == Ok(spec.windows[w])
    requires Accepts(op, ty, produced) && TypedSamples(Histories.SourceHistory(t, M.Source(spec, w)), produced)
    ensures var ts := t[|t| - 1].ts;
            var v := spec.windows[w].report(st.logs[w], ts);
            if wait && ts < duration then v == Ok(Value.None)
            else Answered(op, Inner(ty), InRange(duration, Histories.SourceHistory(t, M.Source(spec, w)), ts), v)
  {
    var src := M.Source(spec, w);
    var h, ts := Histories.SourceHistory(t, src), t[|t| - 1].ts;
    NewWindowIff(spec.windows[w].target, op, ty, duration, wait);
    WindowFaithful(spec.windows[w].target, op, ty, duration, wait);
    Histories.OperationsMeaning(t, src);
    SourceOrdered(t, src);
    WindowMeaning(spec.windows[w].target, op, ty, produced, duration, wait, h, ts);
    assert spec.windows[w].report(st.logs[w], ts) == spec.windows[w].value(h, ts);
  }

  // ---------- the area under a stream ----------

  /**
   The code takes a duration in seconds right exactly if it is a whole number of seconds; its
   fraction counts tenfold.
   */
  lemma SecondsRightIff(d: nat)
    ensures CodedSeconds()(d) == Seconds()(d) + 9.0 * ((d % 1_000_000_000) as real / 1_000_000_000.0)
    ensures CodedSeconds()(d) == Seconds()(d) <==> d % 1_000_000_000 == 0
    ensures CodedSeconds()(d) >= Seconds()(d)
  {
    assert d == d / 1_000_000_000 * 1_000_000_000 + d % 1_000_000_000;
  }

  /** The area under a constant is its value times the time, in seconds. */
  lemma {:induction false} ConstantArea(xs: seq<Sample>, c: real)
    requires TimeOrdered(xs) && xs != [] && forall i | 0 <= i < |xs| :: xs[i].v == Float(c)
    ensures Readable(v => ReadFloat(v), xs)
    ensures Trapezoids(Seconds(), xs) == c * ((xs[|xs| - 1].ts - xs[0].ts) as real / 1_000_000_000.0)
  {
    if |xs| >= 2 {
      var n := |xs| - 1;
      OrderedInit(xs);
      ConstantArea(xs[..n], c);
      TrapezoidsAddUp(Seconds(), xs);
      SecondsAddUp(c, xs[0].ts, xs[n - 1].ts, xs[n].ts);
    }
  }

  lemma SecondsAddUp(c: real, first: nat, mid: nat, last: nat)
    requires first <= mid <= last
    ensures c * ((mid - first) as real / 1_000_000_000.0) + (c + c) / 2.0 * Seconds()(last - mid)
            == c * ((last - first) as real / 1_000_000_000.0)
  {
    var a, b := (mid - first) as real / 1_000_000_000.0, (last - mid) as real / 1_000_000_000.0;
    assert a + b == (last - first) as real / 1_000_000_000.0;
    assert c * a + c * b == c * (a + b);
  }

  /** Consecutive samples are whole seconds apart. */
  ghost predicate WholeSecondsApart(xs: seq<Sample>)
    requires TimeOrdered(xs)
  {
    forall i | 1 <= i < |xs| :: (xs[i].ts - xs[i - 1].ts) % 1_000_000_000 == 0
  }

  ghost predicate Positive(xs: seq<Sample>)
    requires Readable(v => ReadFloat(v), xs)
  {
    forall i | 0 <= i < |xs| :: ReadFloat(xs[i].v).value > 0.0
  }

  /** Over positive samples the reported integral is the area exactly if the samples are whole seconds apart. */
  lemma {:induction false} IntegralIsAreaIff(xs: seq<Sample>)
    requires TimeOrdered(xs) && Readable(v => ReadFloat(v), xs) && Positive(xs)
    ensures Trapezoids(CodedSeconds(), xs) == Trapezoids(Seconds(), xs) <==> WholeSecondsApart(xs)
    ensures Trapezoids(CodedSeconds(), xs) >= Trapezoids(Seconds(), xs)
  {
    if |xs| >= 2 {
      var n := |xs| - 1;
      OrderedInit(xs);
      InitPositive(xs);
      IntegralIsAreaIff(xs[..n]);
      LastArea(xs);
      WholeSecondsInit(xs);
    }
  }

  lemma InitPositive(xs: seq<Sample>)
    requires Readable(v => ReadFloat(v), xs) && Positive(xs) && xs != []
    ensures Readable(v => ReadFloat(v), xs[..|xs| - 1]) && Positive(xs[..|xs| - 1])
  {
    assert forall i | 0 <= i < |xs| - 1 :: xs[..|xs| - 1][i] == xs[i];
  }

  /** The area between the last two samples. */
  function LastPiece(secs: nat -> real, xs: seq<Sample>): real
    requires TimeOrdered(xs) && Readable(v => ReadFloat(v), xs) && |xs| >= 2
  {
    var n := |xs| - 1;
    (ReadFloat(xs[n].v).value + ReadFloat(xs[n - 1].v).value) * secs(xs[n].ts - xs[n - 1].ts) / 2.0
  }

  lemma LastArea(xs: seq<Sample>)
    requires TimeOrdered(xs) && Readable(v => ReadFloat(v), xs) && Positive(xs) && |xs| >= 2
    ensures LastPiece(CodedSeconds(), xs) == LastPiece(Seconds(), xs)
            <==> (xs[|xs| - 1].ts - xs[|xs| - 2].ts) % 1_000_000_000 == 0
    ensures LastPiece(CodedSeconds(), xs) >= LastPiece(Seconds(), xs)
  {
    var n := |xs| - 1;
    SecondsRightIff(xs[n].ts - xs[n - 1].ts);
    var sum := ReadFloat(xs[n].v).value + ReadFloat(xs[n - 1].v).value;
    ProductMonotonic(sum, CodedSeconds()(xs[n].ts - xs[n - 1].ts), Seconds()(xs[n].ts - xs[n - 1].ts));
  }

  lemma ProductMonotonic(sum: real, a: real, b: real)
    requires sum > 0.0 && a >= b
    ensures sum * a >= sum * b && (sum * a == sum * b <==> a == b)
  {
    assert sum * a - sum * b == sum * (a - b);
  }

  lemma WholeSecondsInit(xs: seq<Sample>)
    requires TimeOrdered(xs) && |xs| >= 2
    ensures TimeOrdered(xs[..|xs| - 1])
    ensures WholeSecondsApart(xs) <==>
            WholeSecondsApart(xs[..|xs| - 1]) && (xs[|xs| - 1].ts - xs[|xs| - 2].ts) % 1_000_000_000 == 0
  {
    var init := xs[..|xs| - 1];
    OrderedInit(xs);
    assert forall i | 0 <= i < |init| :: init[i] == xs[i];
  }
}
