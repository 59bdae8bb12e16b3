/** Divisibility of integers: greatest common divisors, least common multiples, and the facts behind them. */
module Numbers {

  lemma MulMonotone(a: int, b: int, n: nat)
    requires a <= b
    ensures a * n <= b * n
  {
  }

  lemma MulDistributes(a: int, b: int, n: int)
    ensures (a + b) * n == a * n + b * n
    ensures (a - b) * n == a * n - b * n
  {
  }

  lemma MulCancel(a: int, b: int, n: int)
    requires n != 0 && a * n == b * n
    ensures a == b
  {
    MulDistributes(a, b, n);
    assert (a - b) * n == 0;
  }

  /** The quotient of an exact multiple. */
  lemma QuotientUnique(q: int, r: int, d: int)
    requires 0 <= r < d
    ensures (q * d + r) / d == q && (q * d + r) % d == r
  {
    var n := q * d + r;
    var q', r' := n / d, n % d;
    assert n == q' * d + r';
    MulDistributes(q, q', d);
    if q - q' >= 1 {
      MulMonotone(1, q - q', d);
    } else if q - q' <= -1 {
      MulMonotone(q - q', -1, d);
    }
  }

  ghost predicate Divides(d: nat, n: int) {
    d > 0 && n % d == 0
  }

  lemma DividesIntro(d: nat, n: int, k: int)
    requires d > 0 && n == k * d
    ensures Divides(d, n) && n / d == k
  {
    QuotientUnique(k, 0, d);
  }

  lemma DividesElim(d: nat, n: int)
    requires Divides(d, n)
    ensures n == (n / d) * d
  {
  }

  lemma DividesTransitive(a: nat, b: nat, c: int)
    requires Divides(a, b) && b > 0 && Divides(b, c)
    ensures Divides(a, c)
  {
    var k, l := b / a, c / b;
    assert c == l * b && b == k * a;
    assert c == (l * k) * a by {
      assert l * (k * a) == (l * k) * a;
    }
    DividesIntro(a, c, l * k);
  }

  /** A divisor of two numbers divides their linear combinations. */
  lemma DividesCombination(d: nat, m: int, n: int, x: int, y: int)
    requires Divides(d, m) && Divides(d, n)
    ensures Divides(d, m * x + n * y)
  {
    var k, l := m / d, n / d;
    assert m == k * d && n == l * d;
    assert m * x + n * y == (k * x + l * y) * d by {
      assert (k * d) * x == (k * x) * d;
      assert (l * d) * y == (l * y) * d;
      MulDistributes(k * x, l * y, d);
    }
    DividesIntro(d, m * x + n * y, k * x + l * y);
  }

  lemma DividesBounds(d: nat, n: nat)
    requires Divides(d, n) && n > 0
    ensures d <= n
  {
  }

  /** Euclid's algorithm. */
  function Gcd(a: nat, b: nat): nat
    decreases b
  {
    if b == 0 then a else Gcd(b, a % b)
  }

  ghost predicate Bezout(a: int, b: int, x: int, y: int, g: int) {
    a * x + b * y == g
  }

  lemma {:induction false} GcdBezout(a: nat, b: nat) returns (x: int, y: int)
    ensures Bezout(a, b, x, y, Gcd(a, b))
    decreases b
  {
    if b == 0 {
      x, y := 1, 0;
    } else {
      var q, r := a / b, a % b;
      var u, v := GcdBezout(b, r);
      x, y := v, u - q * v;
      assert a == q * b + r;
      assert a * v + b * (u - q * v) == b * u + r * v by {
        assert b * (u - q * v) == b * u - b * (q * v);
        assert (q * b + r) * v == q * b * v + r * v;
        assert q * b * v == b * (q * v);
      }
    }
  }

  lemma DividesDividend(g: nat, a: nat, b: nat)
    requires b > 0 && Divides(g, b) && Divides(g, a % b)
    ensures Divides(g, a)
  {
    DividesCombination(g, b, a % b, a / b, 1);
    assert a == b * (a / b) + (a % b) * 1;
  }

  lemma {:induction false} GcdDivides(a: nat, b: nat)
    requires a > 0 || b > 0
    ensures Gcd(a, b) > 0 && Divides(Gcd(a, b), a) && Divides(Gcd(a, b), b)
    decreases b
  {
    if b > 0 {
      GcdDivides(b, a % b);
      DividesDividend(Gcd(a, b), a, b);
    }
  }

  /** The divisors of the gcd are exactly the common divisors. */
  lemma GcdUniversal(a: nat, b: nat, d: nat)
    requires a > 0 || b > 0
    ensures Divides(d, Gcd(a, b)) <==> Divides(d, a) && Divides(d, b)
  {
    GcdDivides(a, b);
    if Divides(d, Gcd(a, b)) {
      DividesTransitive(d, Gcd(a, b), a);
      DividesTransitive(d, Gcd(a, b), b);
    }
    if Divides(d, a) && Divides(d, b) {
      var x, y := GcdBezout(a, b);
      DividesCombination(d, a, b, x, y);
    }
  }

  ghost predicate Coprime(a: nat, b: nat) {
    exists x, y :: Bezout(a, b, x, y, 1)
  }

  lemma CoprimeIffGcd(a: nat, b: nat)
    requires a > 0 || b > 0
    ensures Coprime(a, b) <==> Gcd(a, b) == 1
  {
    GcdDivides(a, b);
    if Gcd(a, b) == 1 {
      var x, y := GcdBezout(a, b);
    }
    if Coprime(a, b) {
      var x, y :| Bezout(a, b, x, y, 1);
      DividesCombination(Gcd(a, b), a, b, x, y);
    }
  }

  lemma CoprimeSymmetric(a: nat, b: nat)
    requires Coprime(a, b)
    ensures Coprime(b, a)
  {
    var x, y :| Bezout(a, b, x, y, 1);
    assert Bezout(b, a, y, x, 1);
  }

  /** Euclid's lemma. */
  lemma EuclidLemma(d: nat, a: nat, c: int)
    requires d > 0 && Coprime(d, a) && Divides(d, a * c)
    ensures Divides(d, c)
  {
    var x, y :| Bezout(d, a, x, y, 1);
    assert c == d * (c * x) + (a * c) * y by {
      assert c * (d * x + a * y) == c;
      assert c * (d * x + a * y) == c * (d * x) + c * (a * y);
      assert c * (d * x) == d * (c * x);
      assert c * (a * y) == (a * c) * y;
    }
    DividesIntro(d, d, 1);
    DividesCombination(d, d, a * c, c * x, y);
  }

  /** A divisor of a coprime number is coprime. */
  lemma CoprimeDivisor(h: nat, n: nat, d: nat)
    requires Divides(h, n) && Coprime(n, d)
    ensures Coprime(h, d)
  {
    var x, y :| Bezout(n, d, x, y, 1);
    var k := n / h;
    assert n == k * h;
    assert (k * h) * x == h * (k * x);
    assert Bezout(h, d, k * x, y, 1);
  }

  lemma CoprimeProduct(h: nat, a: nat, b: nat)
    requires Coprime(h, a) && Coprime(h, b)
    ensures Coprime(h, a * b)
  {
    var x, y :| Bezout(h, a, x, y, 1);
    var u, v :| Bezout(h, b, u, v, 1);
    var s := x + (a * y) * u;
    assert h * s + (a * b) * (y * v) == 1 by {
      assert h * x + a * y == 1 && h * u + b * v == 1;
      assert h * s == h * x + h * ((a * y) * u);
      assert h * ((a * y) * u) == (a * y) * (h * u);
      assert (a * b) * (y * v) == (a * y) * (b * v);
      assert (a * y) * (h * u) + (a * y) * (b * v) == (a * y) * (h * u + b * v);
    }
    assert Bezout(h, a * b, s, y * v, 1);
  }

  /** The least common multiple of positive numbers. */
  function Lcm(a: nat, b: nat): nat
    requires a > 0 && b > 0
  {
    GcdDivides(a, b);
    a * (b / Gcd(a, b))
  }

  lemma BezoutScaled(a: int, b: int, g: nat, x: int, y: int)
    requires g > 0 && Bezout(a * g, b * g, x, y, g)
    ensures Bezout(a, b, x, y, 1)
  {
    assert (a * g) * x == (a * x) * g && (b * g) * y == (b * y) * g;
    MulDistributes(a * x, b * y, g);
    assert (a * x + b * y) * g == 1 * g;
    MulCancel(a * x + b * y, 1, g);
  }

  /** Both numbers as coprime multiples of their gcd. */
  lemma Cofactors(a: nat, b: nat) returns (a': nat, b': nat)
    requires a > 0 && b > 0
    ensures var g := Gcd(a, b);
            g > 0 && a' > 0 && b' > 0 && a == a' * g && b == b' * g && Coprime(a', b') && Lcm(a, b) == a * b'
  {
    GcdDivides(a, b);
    var g := Gcd(a, b);
    a', b' := a / g, b / g;
    DividesElim(g, a);
    DividesElim(g, b);
    var x, y := GcdBezout(a, b);
    BezoutScaled(a', b', g, x, y);
  }

  lemma ProductPositive(a: nat, b: nat)
    requires a > 0 && b > 0
    ensures a * b > 0
  {
    MulMonotone(1, a, b);
  }

  lemma ProductIsMultiple(a: nat, b: nat, g: nat)
    requires a > 0 && b > 0 && g > 0
    ensures Divides(a * g, (a * g) * b) && Divides(b * g, (a * g) * b)
  {
    ProductPositive(a, g);
    ProductPositive(b, g);
    DividesIntro(a * g, (a * g) * b, b);
    assert (a * g) * b == a * (b * g);
    DividesIntro(b * g, (a * g) * b, a);
  }

  lemma LcmIsMultiple(a: nat, b: nat)
    requires a > 0 && b > 0
    ensures Lcm(a, b) > 0 && Divides(a, Lcm(a, b)) && Divides(b, Lcm(a, b))
  {
    var a', b' := Cofactors(a, b);
    ProductIsMultiple(a', b', Gcd(a, b));
    ProductPositive(a, b');
  }

  /** A common multiple of `a g` and `b g`, for coprime `a` and `b`, is a multiple of `a g b`. */
  lemma CommonMultiple(a: nat, b: nat, g: nat, k: int, j: int)
    requires a > 0 && b > 0 && g > 0 && Coprime(a, b)
    requires k * (a * g) == j * (b * g)
    ensures (a * g) * b > 0 && Divides((a * g) * b, k * (a * g))
  {
    assert k * (a * g) == (a * k) * g && j * (b * g) == (j * b) * g;
    MulCancel(a * k, j * b, g);
    DividesIntro(b, a * k, j);
    CoprimeSymmetric(a, b);
    EuclidLemma(b, a, k);
    DividesElim(b, k);
    MulMonotone(1, a, g);
    MulMonotone(1, a * g, b);
    assert ((k / b) * b) * (a * g) == (k / b) * ((a * g) * b);
    DividesIntro((a * g) * b, k * (a * g), k / b);
  }

  /** The multiples of the lcm are exactly the common multiples. */
  lemma LcmUniversal(a: nat, b: nat, m: int)
    requires a > 0 && b > 0
    ensures Lcm(a, b) > 0
    ensures Divides(Lcm(a, b), m) <==> Divides(a, m) && Divides(b, m)
  {
    LcmIsMultiple(a, b);
    if Divides(Lcm(a, b), m) {
      DividesTransitive(a, Lcm(a, b), m);
      DividesTransitive(b, Lcm(a, b), m);
    }
    if Divides(a, m) && Divides(b, m) {
      var a', b' := Cofactors(a, b);
      DividesElim(a, m);
      DividesElim(b, m);
      CommonMultiple(a', b', Gcd(a, b), m / a, m / b);
    }
  }

  /** For coprime numbers, some multiple of the one is just above a multiple of the other. */
  lemma CoprimeStep(u: nat, v: nat) returns (k: nat, l: nat)
    requires u > 0 && v > 0 && Coprime(u, v)
    ensures 1 <= k <= v && k * u == l * v + 1
  {
    var x, y :| Bezout(u, v, x, y, 1);
    var q := x / v;
    if x % v == 0 {
      q := q - 1;
    }
    k := x - q * v;
    var m := -y - u * q;
    BezoutShifted(u, v, x, y, q);
    MulMonotone(1, k, u);
    NotNegative(k * u, m, v);
    l := m;
  }

  lemma BezoutShifted(u: int, v: int, x: int, y: int, q: int)
    requires Bezout(u, v, x, y, 1)
    ensures (x - q * v) * u == (-y - u * q) * v + 1
  {
    MulDistributes(x, q * v, u);
    MulDistributes(-y, u * q, v);
    assert (q * v) * u == (u * q) * v;
  }

  lemma NotNegative(p: int, m: int, v: nat)
    requires p >= 1 && v > 0 && p == m * v + 1
    ensures m >= 0
  {
    if m < 0 {
      MulMonotone(m, -1, v);
    }
  }

  /** Up to their lcm, some multiple of the one is above a multiple of the other by exactly their gcd. */
  lemma GcdStep(s: nat, t: nat) returns (k: nat, l: nat)
    requires s > 0 && t > 0
    ensures 1 <= k && k * s == l * t + Gcd(s, t) && k * s <= Lcm(s, t)
  {
    var u, v := Cofactors(s, t);
    var d := Gcd(s, t);
    k, l := CoprimeStep(u, v);
    assert k * s == (k * u) * d;
    MulDistributes(l * v, 1, d);
    assert (l * v) * d == l * t;
    MulMonotone(k, v, s);
    assert v * s == s * v;
  }

  /** Whatever is coprime to two numbers is coprime to their lcm. */
  lemma CoprimeLcm(h: nat, a: nat, b: nat)
    requires a > 0 && b > 0 && Coprime(h, a) && Coprime(h, b)
    ensures Coprime(h, Lcm(a, b))
  {
    CoprimeProduct(h, a, b);
    LcmUniversal(a, b, a * b);
    DividesIntro(a, a * b, b);
    DividesIntro(b, a * b, a);
    CoprimeSymmetric(h, a * b);
    CoprimeDivisor(Lcm(a, b), a * b, h);
    CoprimeSymmetric(Lcm(a, b), h);
  }

  lemma DividesAntisymmetric(a: nat, b: nat)
    requires Divides(a, b) && Divides(b, a)
    ensures a == b
  {
    DividesBounds(a, b);
    DividesBounds(b, a);
  }
}
