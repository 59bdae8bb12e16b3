/** Positive rational numbers in lowest terms, and their greatest common divisor and least common multiple. */
module Rationals {
  import opened Numbers

  datatype Rat = Rat(num: nat, den: nat)

  /** Positive and in lowest terms, as the rational library keeps its numbers. */
  ghost predicate Reduced(r: Rat) {
    r.num > 0 && r.den > 0 && Coprime(r.num, r.den)
  }

  predicate Equal(a: Rat, b: Rat) {
    a.num * b.den == b.num * a.den
  }

  /** `a` is `k` times `c`. */
  predicate IsMultiple(a: Rat, c: Rat, k: nat) {
    a.num * c.den == k * c.num * a.den
  }

  /** The quotient of `a` by `c` is an integer. */
  ghost predicate Measures(c: Rat, a: Rat) {
    exists k: nat :: IsMultiple(a, c, k)
  }

  /** The reducing constructor. */
  function NewRat(n: nat, d: nat): Rat
    requires n > 0 && d > 0
  {
    GcdDivides(n, d);
    Rat(n / Gcd(n, d), d / Gcd(n, d))
  }

  lemma NewRatReduced(n: nat, d: nat)
    requires n > 0 && d > 0
    ensures Reduced(NewRat(n, d)) && Equal(NewRat(n, d), Rat(n, d))
  {
    var n', d' := Cofactors(n, d);
    var g := Gcd(n, d);
    DividesIntro(g, n, n');
    DividesIntro(g, d, d');
    assert n' * (d' * g) == (n' * g) * d';
  }

  lemma NewRatOfCoprime(n: nat, d: nat)
    requires n > 0 && d > 0 && Coprime(n, d)
    ensures NewRat(n, d) == Rat(n, d)
  {
    CoprimeIffGcd(n, d);
  }

  /** The quotient is the integer its reduced form says it is, or not an integer. */
  function Quotient(a: Rat, c: Rat): Rat
    requires a.num > 0 && a.den > 0 && c.num > 0 && c.den > 0
  {
    ProductPositive(a.num, c.den);
    ProductPositive(a.den, c.num);
    NewRat(a.num * c.den, a.den * c.num)
  }

  /** The reduced quotient has denominator one exactly if one number measures the other. */
  lemma QuotientInteger(a: Rat, c: Rat)
    requires a.num > 0 && a.den > 0 && c.num > 0 && c.den > 0
    ensures Quotient(a, c).den == 1 <==> Measures(c, a)
    ensures Quotient(a, c).den == 1 ==> IsMultiple(a, c, Quotient(a, c).num)
  {
    ProductPositive(a.num, c.den);
    ProductPositive(a.den, c.num);
    var n, d := a.num * c.den, a.den * c.num;
    var n', d' := Cofactors(n, d);
    var g := Gcd(n, d);
    DividesIntro(g, n, n');
    DividesIntro(g, d, d');
    assert Quotient(a, c) == Rat(n', d');
    if d' == 1 {
      QuotientMultiple(a, c, n');
    }
    if k: nat :| IsMultiple(a, c, k) {
      MultipleProduct(a, c, k);
      assert n' * g == k * (d' * g);
      MeasuredDenominator(n', d', g, k);
    }
  }

  lemma MultipleProduct(a: Rat, c: Rat, k: nat)
    requires IsMultiple(a, c, k)
    ensures a.num * c.den == k * (a.den * c.num)
  {
    assert k * (a.den * c.num) == k * c.num * a.den;
  }

  lemma QuotientMultiple(a: Rat, c: Rat, n: nat)
    requires a.num * c.den == n * (a.den * c.num)
    ensures IsMultiple(a, c, n)
  {
    assert n * (a.den * c.num) == n * c.num * a.den;
  }

  lemma MeasuredDenominator(n: nat, d: nat, g: nat, k: nat)
    requires n > 0 && d > 0 && g > 0 && Coprime(n, d) && n * g == k * (d * g)
    ensures d == 1
  {
    assert n * g == (k * d) * g;
    MulCancel(n, k * d, g);
    DividesIntro(d, n, k);
    CoprimeSymmetric(n, d);
    var x, y :| Bezout(d, n, x, y, 1);
    DividesIntro(d, d, 1);
    DividesCombination(d, d, n, x, y);
  }

  /** For reduced numbers, measuring is divisibility of numerators one way and of denominators the other. */
  lemma MeasuresIff(c: Rat, a: Rat)
    requires Reduced(c) && Reduced(a)
    ensures Measures(c, a) <==> Divides(c.num, a.num) && Divides(a.den, c.den)
  {
    if k: nat :| IsMultiple(a, c, k) {
      MultipleDivides(c, a, k);
    }
    if Divides(c.num, a.num) && Divides(a.den, c.den) {
      DividedMultiple(c, a);
    }
  }

  lemma MultipleDivides(c: Rat, a: Rat, k: nat)
    requires Reduced(c) && Reduced(a) && IsMultiple(a, c, k)
    ensures Divides(c.num, a.num) && Divides(a.den, c.den)
  {
    assert c.den * a.num == (k * a.den) * c.num by {
      assert k * c.num * a.den == (k * a.den) * c.num;
    }
    DividesIntro(c.num, c.den * a.num, k * a.den);
    EuclidLemma(c.num, c.den, a.num);
    DividesIntro(a.den, a.num * c.den, k * c.num);
    CoprimeSymmetric(a.num, a.den);
    EuclidLemma(a.den, a.num, c.den);
  }

  lemma DividedMultiple(c: Rat, a: Rat)
    requires a.den > 0 && c.num > 0 && Divides(c.num, a.num) && Divides(a.den, c.den)
    ensures Measures(c, a)
  {
    var x, y := a.num / c.num, c.den / a.den;
    assert a.num == x * c.num && c.den == y * a.den;
    assert (x * c.num) * (y * a.den) == (x * y) * c.num * a.den by {
      assert (x * c.num) * (y * a.den) == ((x * c.num) * y) * a.den;
      assert (x * c.num) * y == (x * y) * c.num;
    }
    assert IsMultiple(a, c, x * y);
  }

  // ---------- greatest common divisor and least common multiple ----------

  function RationalGcd(a: Rat, b: Rat): Rat
    requires a.num > 0 && a.den > 0 && b.num > 0 && b.den > 0
  {
    GcdDivides(a.num, b.num);
    LcmIsMultiple(a.den, b.den);
    NewRat(Gcd(a.num, b.num), Lcm(a.den, b.den))
  }

  function RationalLcm(a: Rat, b: Rat): Rat
    requires a.num > 0 && a.den > 0 && b.num > 0 && b.den > 0
  {
    GcdDivides(a.den, b.den);
    LcmIsMultiple(a.num, b.num);
    NewRat(Lcm(a.num, b.num), Gcd(a.den, b.den))
  }

  /** On reduced numbers the constructor has nothing left to reduce. */
  lemma RationalGcdShape(a: Rat, b: Rat)
    requires Reduced(a) && Reduced(b)
    ensures RationalGcd(a, b) == Rat(Gcd(a.num, b.num), Lcm(a.den, b.den)) && Reduced(RationalGcd(a, b))
  {
    GcdDivides(a.num, b.num);
    LcmIsMultiple(a.den, b.den);
    var h := Gcd(a.num, b.num);
    CoprimeDivisor(h, a.num, a.den);
    CoprimeDivisor(h, b.num, b.den);
    CoprimeLcm(h, a.den, b.den);
    NewRatOfCoprime(h, Lcm(a.den, b.den));
  }

  lemma RationalLcmShape(a: Rat, b: Rat)
    requires Reduced(a) && Reduced(b)
    ensures RationalLcm(a, b) == Rat(Lcm(a.num, b.num), Gcd(a.den, b.den)) && Reduced(RationalLcm(a, b))
  {
    GcdDivides(a.den, b.den);
    LcmIsMultiple(a.num, b.num);
    var h := Gcd(a.den, b.den);
    CoprimeSymmetric(a.num, a.den);
    CoprimeSymmetric(b.num, b.den);
    CoprimeDivisor(h, a.den, a.num);
    CoprimeDivisor(h, b.den, b.num);
    CoprimeLcm(h, a.num, b.num);
    CoprimeSymmetric(h, Lcm(a.num, b.num));
    NewRatOfCoprime(Lcm(a.num, b.num), h);
  }

  /** What measures the gcd is exactly what measures both numbers. */
  lemma RationalGcdUniversal(a: Rat, b: Rat, c: Rat)
    requires Reduced(a) && Reduced(b) && Reduced(c)
    ensures Measures(c, RationalGcd(a, b)) <==> Measures(c, a) && Measures(c, b)
  {
    RationalGcdShape(a, b);
    MeasuresIff(c, RationalGcd(a, b));
    MeasuresIff(c, a);
    MeasuresIff(c, b);
    GcdUniversal(a.num, b.num, c.num);
    LcmUniversal(a.den, b.den, c.den);
  }

  /** What the lcm measures is exactly what both numbers measure. */
  lemma RationalLcmUniversal(a: Rat, b: Rat, m: Rat)
    requires Reduced(a) && Reduced(b) && Reduced(m)
    ensures Measures(RationalLcm(a, b), m) <==> Measures(a, m) && Measures(b, m)
  {
    RationalLcmShape(a, b);
    MeasuresIff(RationalLcm(a, b), m);
    MeasuresIff(a, m);
    MeasuresIff(b, m);
    LcmUniversal(a.num, b.num, m.num);
    GcdUniversal(a.den, b.den, m.den);
  }

  ghost predicate AllReduced(v: seq<Rat>) {
    forall i | 0 <= i < |v| :: Reduced(v[i])
  }

  /** The fold over a prefix, starting from the first number as the code does. */
  ghost function GcdUpTo(v: seq<Rat>, n: nat): (r: Rat)
    requires AllReduced(v) && v != [] && n <= |v|
    ensures Reduced(r)
  {
    if n == 0 then v[0]
    else
      RationalGcdShape(GcdUpTo(v, n - 1), v[n - 1]);
      RationalGcd(GcdUpTo(v, n - 1), v[n - 1])
  }

  ghost function LcmUpTo(v: seq<Rat>, n: nat): (r: Rat)
    requires AllReduced(v) && v != [] && n <= |v|
    ensures Reduced(r)
  {
    if n == 0 then v[0]
    else
      RationalLcmShape(LcmUpTo(v, n - 1), v[n - 1]);
      RationalLcm(LcmUpTo(v, n - 1), v[n - 1])
  }

  lemma {:induction false} GcdUpToUniversal(v: seq<Rat>, n: nat, c: Rat)
    requires AllReduced(v) && v != [] && n <= |v| && Reduced(c)
    ensures Measures(c, GcdUpTo(v, n)) <==> Measures(c, v[0]) && forall i | 0 <= i < n :: Measures(c, v[i])
  {
    if n > 0 {
      GcdUpToUniversal(v, n - 1, c);
      RationalGcdUniversal(GcdUpTo(v, n - 1), v[n - 1], c);
    }
  }

  lemma {:induction false} LcmUpToUniversal(v: seq<Rat>, n: nat, m: Rat)
    requires AllReduced(v) && v != [] && n <= |v| && Reduced(m)
    ensures Measures(LcmUpTo(v, n), m) <==> Measures(v[0], m) && forall i | 0 <= i < n :: Measures(v[i], m)
  {
    if n > 0 {
      LcmUpToUniversal(v, n - 1, m);
      RationalLcmUniversal(LcmUpTo(v, n - 1), v[n - 1], m);
    }
  }

  /** The greatest common divisor of a list: it measures every number, and whatever does measures it. */
  method RationalGcdAll(v: seq<Rat>) returns (r: Rat)
    requires AllReduced(v) && v != []
    ensures Reduced(r)
    ensures forall c | Reduced(c) :: Measures(c, r) <==> forall i | 0 <= i < |v| :: Measures(c, v[i])
  {
    r := v[0];
    for i := 0 to |v|
      invariant r == GcdUpTo(v, i)
    {
      r := RationalGcd(r, v[i]);
    }
    forall c | Reduced(c) ensures Measures(c, r) <==> forall i | 0 <= i < |v| :: Measures(c, v[i]) {
      GcdUpToUniversal(v, |v|, c);
    }
  }

  /** The least common multiple of a list: every number measures it, and it measures every common multiple. */
  method RationalLcmAll(v: seq<Rat>) returns (r: Rat)
    requires AllReduced(v) && v != []
    ensures Reduced(r)
    ensures forall m | Reduced(m) :: Measures(r, m) <==> forall i | 0 <= i < |v| :: Measures(v[i], m)
  {
    r := v[0];
    for i := 0 to |v|
      invariant r == LcmUpTo(v, i)
    {
      r := RationalLcm(r, v[i]);
    }
    forall m | Reduced(m) ensures Measures(r, m) <==> forall i | 0 <= i < |v| :: Measures(v[i], m) {
      LcmUpToUniversal(v, |v|, m);
    }
  }

  lemma MeasuresReflexive(a: Rat)
    ensures Measures(a, a)
  {
    assert IsMultiple(a, a, 1);
  }

  /** Reduced numbers that measure each other are the same, so gcd and lcm do not depend on any order. */
  lemma MeasuresAntisymmetric(a: Rat, b: Rat)
    requires Reduced(a) && Reduced(b) && Measures(a, b) && Measures(b, a)
    ensures a == b
  {
    MeasuresIff(a, b);
    MeasuresIff(b, a);
    DividesAntisymmetric(a.num, b.num);
    DividesAntisymmetric(a.den, b.den);
  }

  lemma MeasuresTransitive(a: Rat, b: Rat, c: Rat)
    requires Reduced(a) && Reduced(b) && Reduced(c) && Measures(a, b) && Measures(b, c)
    ensures Measures(a, c)
  {
    MeasuresIff(a, b);
    MeasuresIff(b, c);
    MeasuresIff(a, c);
    DividesTransitive(a.num, b.num, c.num);
    DividesTransitive(c.den, b.den, a.den);
  }

  /** Folding the same numbers in any order, with any repetitions, yields the same gcd. */
  lemma GcdOrderIndependent(v: seq<Rat>, w: seq<Rat>)
    requires AllReduced(v) && AllReduced(w) && v != [] && w != []
    requires forall r :: r in v <==> r in w
    ensures GcdUpTo(v, |v|) == GcdUpTo(w, |w|)
  {
    GcdMeasuresAll(v, w);
    GcdMeasuresAll(w, v);
    MeasuresAntisymmetric(GcdUpTo(v, |v|), GcdUpTo(w, |w|));
  }

  lemma GcdMeasuresAll(v: seq<Rat>, w: seq<Rat>)
    requires AllReduced(v) && AllReduced(w) && v != [] && w != []
    requires forall r | r in w :: r in v
    ensures Measures(GcdUpTo(v, |v|), GcdUpTo(w, |w|))
  {
    var g := GcdUpTo(v, |v|);
    MeasuresReflexive(g);
    GcdUpToUniversal(v, |v|, g);
    forall i | 0 <= i < |w| ensures Measures(g, w[i]) {
      assert w[i] in v;
    }
    GcdUpToUniversal(w, |w|, g);
  }
}
