/** The gcd and lcm evaluators for rationals, and why they deserve their names. */
module RationalGcd {
  import opened Integers
  import opened RationalNumbers
  import opened Reduction

  ghost function GcdOf(x: Fraction, y: Fraction): (g: Fraction)
    requires x.d != 0 && y.d != 0
    ensures Normal(g)
  {
    LcmPositive(x.d, y.d);
    Canon(Gcd(x.n, y.n), Lcm(x.d, y.d))
  }

  ghost function LcmOf(x: Fraction, y: Fraction): (l: Fraction)
    requires x.d != 0 && y.d != 0
    ensures Normal(l)
  {
    GcdPositive(x.d, y.d);
    Canon(Lcm(x.n, y.n), Gcd(x.d, y.d))
  }

  lemma CanonOfNatural(n: nat, d: nat)
    requires d > 0
    ensures Canon(n, d).n >= 0 && Value(Canon(n, d)) >= 0.0 && (Canon(n, d).n == 0 <==> n == 0)
  {
    var x := Canon(n, d);
    if x.n < 0 {
      AtLeastFactors(-x.n, d);
      Signs(x.n, d);
      NaturalProduct(n, x.d);
    }
    if x.n > 0 {
      AtLeastFactors(x.n, d);
    }
    if n > 0 {
      AtLeastFactors(n, x.d);
    }
    QuotientSign(x.n, x.d);
  }

  lemma NaturalProduct(a: nat, b: nat)
    ensures a * b >= 0
  {
  }

  /** The gcd is not negative, and zero only for two zeros. */
  lemma GcdIsNotNegative(x: Fraction, y: Fraction)
    requires Normal(x) && Normal(y)
    ensures GcdOf(x, y).n >= 0 && Value(GcdOf(x, y)) >= 0.0
    ensures GcdOf(x, y).n == 0 <==> x.n == 0 && y.n == 0
  {
    LcmPositive(x.d, y.d);
    GcdPositive(x.n, y.n);
    CanonOfNatural(Gcd(x.n, y.n), Lcm(x.d, y.d));
  }

  /** The lcm is not negative, and zero only if one of the two is. */
  lemma LcmIsNotNegative(x: Fraction, y: Fraction)
    requires Normal(x) && Normal(y)
    ensures LcmOf(x, y).n >= 0 && Value(LcmOf(x, y)) >= 0.0
    ensures LcmOf(x, y).n == 0 <==> x.n == 0 || y.n == 0
  {
    LcmPositive(x.n, y.n);
    GcdPositive(x.d, y.d);
    CanonOfNatural(Lcm(x.n, y.n), Gcd(x.d, y.d));
  }

  lemma LcmPositive(a: int, b: int)
    ensures Lcm(a, b) != 0 <==> a != 0 && b != 0
  {
    GcdTimesLcm(a, b);
    GcdPositive(a, b);
    if a != 0 && b != 0 {
      AtLeastFactors(Abs(a), Abs(b));
    }
  }

  /** v is an integer multiple of w. */
  ghost predicate MultipleOf(v: real, w: real) {
    exists k: int :: IsTimes(v, k, w)
  }

  predicate IsTimes(v: real, k: int, w: real) {
    v == k as real * w
  }

  /** Both fractions over the least common denominator, with numerators whose gcd is unchanged. */
  lemma CommonDenominator(x: Fraction, y: Fraction) returns (l: int, e: int, f: int, u: int, v: int)
    requires Normal(x) && Normal(y)
    ensures l == Lcm(x.d, y.d) > 0 && l == x.d * e && l == y.d * f
    ensures x.n * e * u + y.n * f * v == Gcd(x.n, y.n)
  {
    var g;
    g, f, e := Split(x.d, y.d);
    l := Lcm(x.d, y.d);
    assert l == f * y.d;
    assert f * (g * e) == g * f * e;
    AtLeastFactors(f, y.d);
    if x.n == 0 && y.n == 0 {
      u, v := 0, 0;
      GcdPositive(0, 0);
    } else {
      var h, a, b := Split(x.n, y.n);
      ScaledStayCoprime(x, y, g, f, e, h, a, b);
      u, v := Bezout(a * e, b * f);
      ScaleBezout(h, a, e, u, b, f, v);
    }
  }

  lemma ScaledStayCoprime(x: Fraction, y: Fraction, g: int, f: int, e: int, h: int, a: int, b: int)
    requires Normal(x) && Normal(y) && Coprime(f, e) && Coprime(a, b)
    requires x.d == g * f && y.d == g * e && x.n == h * a && y.n == h * b
    ensures Coprime(a * e, b * f)
  {
    CoprimeFactors(x.n, x.d, a, h, f, g);
    CoprimeFactors(y.n, y.d, b, h, e, g);
    CoprimeToProduct(a, b, f);
    CoprimeSymmetric(b, e);
    CoprimeSymmetric(f, e);
    CoprimeToProduct(e, b, f);
    CoprimeSymmetric(a, b * f);
    CoprimeSymmetric(e, b * f);
    CoprimeToProduct(b * f, a, e);
    CoprimeSymmetric(b * f, a * e);
  }

  lemma ScaleBezout(h: int, a: int, e: int, u: int, b: int, f: int, v: int)
    requires a * e * u + b * f * v == 1
    ensures h * a * e * u + h * b * f * v == h
  {
    FactorOut(h, a * e, u, b * f, v);
    assert h * a * e == h * (a * e) && h * b * f == h * (b * f);
  }

  lemma FactorOut(h: int, p: int, u: int, q: int, v: int)
    ensures h * p * u + h * q * v == h * (p * u + q * v)
  {
  }

  /** A fraction over a multiple of its denominator. */
  lemma OverDenominator(x: Fraction, l: int, e: int)
    requires x.d != 0 && l != 0 && l == x.d * e
    ensures Value(x) == (x.n * e) as real / l as real
  {
    assert x.n * (x.d * e) == x.n * e * x.d;
    EqualValues(x, Fraction(x.n * e, l));
  }

  lemma CombineQuotients(p: int, u: int, q: int, v: int, l: int)
    requires l != 0
    ensures (p * u + q * v) as real / l as real
         == u as real * (p as real / l as real) + v as real * (q as real / l as real)
  {
    var a, b, r := p as real, q as real, l as real;
    var s, t := a / r, b / r;
    assert a == s * r && b == t * r;
    assert (p * u) as real == a * u as real && (q * v) as real == b * v as real;
    assert (p * u + q * v) as real == (u as real * s + v as real * t) * r;
  }

  /** The gcd is an integer combination of the two numbers. */
  lemma GcdIsCombination(x: Fraction, y: Fraction) returns (u: int, v: int)
    requires Normal(x) && Normal(y)
    ensures Value(GcdOf(x, y)) == u as real * Value(x) + v as real * Value(y)
  {
    var l, e, f, u', v' := CommonDenominator(x, y);
    u, v := u', v';
    OverDenominator(x, l, e);
    OverDenominator(y, l, f);
    CombineQuotients(x.n * e, u, y.n * f, v, l);
    CanonValue(Gcd(x.n, y.n), l);
  }

  lemma ScaleQuotient(p: int, k: int, l: int)
    requires l != 0
    ensures (p * k) as real / l as real == k as real * (p as real / l as real)
  {
    CombineQuotients(p, k, 0, 0, l);
  }

  /** The first number is an integer multiple of the gcd. */
  lemma GcdDividesFirst(x: Fraction, y: Fraction)
    requires Normal(x) && Normal(y)
    ensures MultipleOf(Value(x), Value(GcdOf(x, y)))
  {
    var l, e, f, u, v := CommonDenominator(x, y);
    var i, j := GcdDivides(x.n, y.n);
    NumeratorIsMultiple(x, Gcd(x.n, y.n), i, l, e);
    CanonValue(Gcd(x.n, y.n), l);
    assert IsTimes(Value(x), i * e, Value(GcdOf(x, y)));
  }

  lemma NumeratorIsMultiple(x: Fraction, g: int, i: int, l: int, e: int)
    requires x.d != 0 && l != 0 && l == x.d * e && x.n == g * i
    ensures Value(x) == (i * e) as real * (g as real / l as real)
  {
    OverDenominator(x, l, e);
    assert x.n * e == g * (i * e);
    ScaleQuotient(g, i * e, l);
  }

  lemma GcdDividesBoth(x: Fraction, y: Fraction)
    requires Normal(x) && Normal(y)
    ensures MultipleOf(Value(x), Value(GcdOf(x, y))) && MultipleOf(Value(y), Value(GcdOf(x, y)))
  {
    GcdDividesFirst(x, y);
    GcdDividesFirst(y, x);
    GcdSymmetric(x.n, y.n);
    LcmSymmetric(x.d, y.d);
  }

  /** Every common divisor, of whatever real size, divides the gcd. */
  lemma GcdIsGreatestDivisor(x: Fraction, y: Fraction, c: real)
    requires Normal(x) && Normal(y)
    requires MultipleOf(Value(x), c) && MultipleOf(Value(y), c)
    ensures MultipleOf(Value(GcdOf(x, y)), c)
  {
    var u, v := GcdIsCombination(x, y);
    CombinationIsMultiple(Value(GcdOf(x, y)), Value(x), Value(y), u, v, c);
  }

  lemma CombinationIsMultiple(g: real, v: real, w: real, s: int, t: int, c: real)
    requires g == s as real * v + t as real * w && MultipleOf(v, c) && MultipleOf(w, c)
    ensures MultipleOf(g, c)
  {
    var i: int :| IsTimes(v, i, c);
    var j: int :| IsTimes(w, j, c);
    CombineMultiples(s, i, t, j, c);
    assert IsTimes(g, s * i + t * j, c);
  }

  lemma CombineMultiples(u: int, i: int, v: int, j: int, c: real)
    ensures u as real * (i as real * c) + v as real * (j as real * c) == (u * i + v * j) as real * c
  {
    assert (u * i) as real == u as real * i as real && (v * j) as real == v as real * j as real;
  }

  ghost function AbsReal(v: real): real {
    if v < 0.0 then -v else v
  }

  /** gcd times lcm is the magnitude of the product. */
  lemma GcdTimesLcmIsProduct(x: Fraction, y: Fraction)
    requires Normal(x) && Normal(y)
    ensures Value(GcdOf(x, y)) * Value(LcmOf(x, y)) == AbsReal(Value(x) * Value(y))
  {
    var g, l, h, m := Gcd(x.n, y.n), Lcm(x.d, y.d), Gcd(x.d, y.d), Lcm(x.n, y.n);
    LcmPositive(x.d, y.d);
    GcdPositive(x.d, y.d);
    CanonValue(g, l);
    CanonValue(m, h);
    GcdTimesLcm(x.n, y.n);
    GcdTimesLcm(x.d, y.d);
    AbsProduct(x.n, y.n);
    MagnitudeOfProducts(x, y, g, l, m, h, Value(GcdOf(x, y)), Value(LcmOf(x, y)));
  }

  lemma MagnitudeOfProducts(x: Fraction, y: Fraction, g: int, l: int, m: int, h: int, v: real, w: real)
    requires x.d > 0 && y.d > 0 && l != 0 && h != 0
    requires v == g as real / l as real && w == m as real / h as real
    requires g * m == Abs(x.n * y.n) && h * l == x.d * y.d
    ensures v * w == AbsReal(Value(x) * Value(y))
  {
    NonZeroProduct(l, h);
    AtLeastFactors(x.d, y.d);
    IntegerProducts(g, l, m, h);
    IntegerProducts(x.n, x.d, y.n, y.d);
    assert l * h == h * l;
    QuotientMagnitude(x.n * y.n, x.d * y.d);
  }

  lemma QuotientMagnitude(p: int, q: int)
    requires q > 0
    ensures Abs(p) as real / q as real == AbsReal(p as real / q as real)
  {
    QuotientSign(p, q);
    var v := p as real / q as real;
    assert p as real == v * q as real;
    assert (-p) as real == -v * q as real;
  }

  lemma QuotientSign(p: int, q: int)
    requires q > 0
    ensures p as real / q as real >= 0.0 <==> p >= 0
    ensures p as real / q as real > 0.0 <==> p > 0
  {
    var v := p as real / q as real;
    assert p as real == v * q as real;
    SignOfProduct(v, q as real);
    SignOfProduct(-v, q as real);
  }

  /** The lcm over the least common denominator of x and y. */
  lemma LcmOverCommonDenominator(x: Fraction, y: Fraction, l: int, e: int, f: int)
    requires Normal(x) && Normal(y) && l == Lcm(x.d, y.d) > 0 && l == x.d * e && l == y.d * f
    ensures Value(LcmOf(x, y)) == Lcm(x.n * e, y.n * f) as real / l as real
  {
    var m, h := Lcm(x.n, y.n), Gcd(x.d, y.d);
    GcdPositive(x.d, y.d);
    CanonValue(m, h);
    LcmScales(x, y, l, e, f);
    EqualValues(Fraction(m, h), Fraction(Lcm(x.n * e, y.n * f), l));
  }

  lemma LcmScales(x: Fraction, y: Fraction, l: int, e: int, f: int)
    requires Normal(x) && Normal(y) && l == Lcm(x.d, y.d) > 0 && l == x.d * e && l == y.d * f
    ensures Lcm(x.n, y.n) * l == Lcm(x.n * e, y.n * f) * Gcd(x.d, y.d)
  {
    var g, h := Gcd(x.n, y.n), Gcd(x.d, y.d);
    var m, m' := Lcm(x.n, y.n), Lcm(x.n * e, y.n * f);
    GcdScaled(x, y, l, e, f);
    GcdPositive(x.n, y.n);
    if g == 0 {
      GcdPositive(x.n * e, y.n * f);
    } else {
      GcdTimesLcm(x.n, y.n);
      GcdTimesLcm(x.n * e, y.n * f);
      GcdTimesLcm(x.d, y.d);
      Cofactors(x.d, y.d, l, e, f, h);
      AbsProduct(x.n, e);
      AbsProduct(y.n, f);
      ScaleLaw(g, m, m', Abs(x.n), Abs(y.n), e, f, h, l);
    }
  }

  /** The least common denominator is the product of the two cofactors and the gcd. */
  lemma Cofactors(d: int, d': int, l: int, e: int, f: int, h: int)
    requires d > 0 && d' > 0 && l > 0 && l == d * e && l == d' * f && h * l == d * d'
    ensures l == e * f * h && e > 0 && f > 0
  {
    SignOfFactor(l, d, e);
    SignOfFactor(l, d', f);
    calc {
      e * f * h * l;
      e * f * (h * l);
      e * f * (d * d');
      (d * e) * (d' * f);
      l * l;
    }
    EqualFactors(e * f * h, l, l);
  }

  lemma ScaleLaw(g: int, m: int, m': int, a: int, c: int, e: int, f: int, h: int, l: int)
    requires g > 0 && g * m == a * c && g * m' == (a * e) * (c * f) && l == e * f * h
    ensures m * l == m' * h
  {
    assert (m * l) * g == (g * m) * l;
    assert (m' * h) * g == (g * m') * h;
    SpreadFactors(a, c, e, f, h);
    EqualFactors(m * l, m' * h, g);
  }

  lemma SpreadFactors(a: int, c: int, e: int, f: int, h: int)
    ensures a * c * (e * f * h) == a * e * (c * f) * h
  {
  }

  /** Scaling both numerators to the common denominator keeps their gcd. */
  lemma GcdScaled(x: Fraction, y: Fraction, l: int, e: int, f: int)
    requires Normal(x) && Normal(y) && l == Lcm(x.d, y.d) > 0 && l == x.d * e && l == y.d * f
    ensures Gcd(x.n * e, y.n * f) == Gcd(x.n, y.n)
  {
    var l', e', f', u, v := CommonDenominator(x, y);
    CancelLeft(x.d, e, e');
    CancelLeft(y.d, f, f');
    var g, g' := Gcd(x.n, y.n), Gcd(x.n * e, y.n * f);
    var i, j := GcdDivides(x.n, y.n);
    var p, q := GcdDivides(x.n * e, y.n * f);
    Regroup(g, i, e);
    Regroup(g, j, f);
    DividesBy(g, x.n * e, i * e);
    DividesBy(g, y.n * f, j * f);
    GcdIsGreatest(x.n * e, y.n * f, g);
    Combine(g', p, u, q, v);
    DividesBy(g', g, p * u + q * v);
    GcdPositive(x.n, y.n);
    GcdPositive(x.n * e, y.n * f);
    if g > 0 && g' > 0 {
      MutualDivisors(g, g');
    } else {
      ZeroDivides(g, g');
    }
  }

  lemma ZeroDivides(a: int, b: int)
    requires Divides(a, b) && Divides(b, a) && (a == 0 || b == 0)
    ensures a == b
  {
    var i := Quotient(a, b);
    var j := Quotient(b, a);
  }

  lemma CancelLeft(d: int, e: int, e': int)
    requires d != 0 && d * e == d * e'
    ensures e == e'
  {
    assert e * d == e' * d;
    EqualFactors(e, e', d);
  }

  /** Both numbers divide the lcm. */
  lemma LcmIsMultipleOfBoth(x: Fraction, y: Fraction)
    requires Normal(x) && Normal(y)
    ensures MultipleOf(Value(LcmOf(x, y)), Value(x)) && MultipleOf(Value(LcmOf(x, y)), Value(y))
  {
    var l, e, f, u, v := CommonDenominator(x, y);
    LcmOverCommonDenominator(x, y, l, e, f);
    LcmIsMultiple(x.n * e, y.n * f);
    LcmIsMultiple(y.n * f, x.n * e);
    LcmSymmetric(x.n * e, y.n * f);
    OverDenominator(x, l, e);
    OverDenominator(y, l, f);
    MultipleOver(x.n * e, Lcm(x.n * e, y.n * f), l);
    MultipleOver(y.n * f, Lcm(x.n * e, y.n * f), l);
  }

  /** Integer divisibility of numerators over a common denominator. */
  lemma MultipleOver(a: int, n: int, l: int)
    requires l != 0 && Divides(a, n)
    ensures MultipleOf(n as real / l as real, a as real / l as real)
  {
    var k := Quotient(a, n);
    ScaleQuotient(a, k, l);
    assert IsTimes(n as real / l as real, k, a as real / l as real);
  }

  /** The lcm divides every common multiple, of whatever real size. */
  lemma LcmIsLeastMultiple(x: Fraction, y: Fraction, m: real)
    requires Normal(x) && Normal(y)
    requires MultipleOf(m, Value(x)) && MultipleOf(m, Value(y))
    ensures MultipleOf(m, Value(LcmOf(x, y)))
  {
    var l, e, f, u, v := CommonDenominator(x, y);
    OverDenominator(x, l, e);
    OverDenominator(y, l, f);
    var n := CommonNumerator(m, x.n * e, y.n * f, l);
    LcmOverCommonDenominator(x, y, l, e, f);
    LcmIsLeast(x.n * e, y.n * f, n);
    MultipleOver(Lcm(x.n * e, y.n * f), n, l);
  }

  /** A common multiple of a/l and c/l is n/l for a common multiple n of a and c. */
  lemma CommonNumerator(m: real, a: int, c: int, l: int) returns (n: int)
    requires l != 0
    requires MultipleOf(m, a as real / l as real) && MultipleOf(m, c as real / l as real)
    ensures m == n as real / l as real && Divides(a, n) && Divides(c, n)
  {
    var i: int :| IsTimes(m, i, a as real / l as real);
    var j: int :| IsTimes(m, j, c as real / l as real);
    ScaleQuotient(a, i, l);
    ScaleQuotient(c, j, l);
    n := a * i;
    SameNumerator(a * i, c * j, l);
    DividesBy(a, n, i);
    DividesBy(c, n, j);
  }

  lemma SameNumerator(p: int, q: int, l: int)
    requires l != 0 && p as real / l as real == q as real / l as real
    ensures p == q
  {
    EqualQuotients(p as real, l as real, q as real, l as real);
    assert (p - q) as real * l as real == 0.0;
  }

  // ----- Each is the only number of its kind

  lemma MultipleIsAtLeast(v: real, w: real)
    requires v > 0.0 && w >= 0.0 && MultipleOf(v, w)
    ensures w > 0.0 && v >= w
  {
    var k: int :| IsTimes(v, k, w);
    if k <= 0 {
      SignOfProduct(k as real, w);
    }
    assert k as real >= 1.0;
    AtLeastOnce(k as real, w);
  }

  lemma AtLeastOnce(k: real, w: real)
    requires k >= 1.0 && w >= 0.0
    ensures k * w >= w
  {
    assert k * w == w + (k - 1.0) * w;
  }

  lemma MutualMultiples(v: real, w: real)
    requires v >= 0.0 && w >= 0.0 && MultipleOf(v, w) && MultipleOf(w, v)
    ensures v == w
  {
    if v > 0.0 {
      MultipleIsAtLeast(v, w);
    }
    if w > 0.0 {
      MultipleIsAtLeast(w, v);
    }
  }

  /** The gcd is the one non-negative common divisor that every common divisor divides. */
  lemma GcdIsTheGreatestDivisor(x: Fraction, y: Fraction, g: real)
    requires Normal(x) && Normal(y)
    ensures g == Value(GcdOf(x, y)) <==>
            g >= 0.0 && MultipleOf(Value(x), g) && MultipleOf(Value(y), g) &&
            forall c: real :: MultipleOf(Value(x), c) && MultipleOf(Value(y), c) ==> MultipleOf(g, c)
  {
    var v := Value(GcdOf(x, y));
    GcdIsNotNegative(x, y);
    GcdDividesBoth(x, y);
    forall c: real | MultipleOf(Value(x), c) && MultipleOf(Value(y), c) ensures MultipleOf(v, c) {
      GcdIsGreatestDivisor(x, y, c);
    }
    if g >= 0.0 && MultipleOf(g, v) && MultipleOf(v, g) {
      MutualMultiples(g, v);
    }
  }

  /** The lcm is the one non-negative common multiple that divides every common multiple. */
  lemma LcmIsTheLeastMultiple(x: Fraction, y: Fraction, l: real)
    requires Normal(x) && Normal(y)
    ensures l == Value(LcmOf(x, y)) <==>
            l >= 0.0 && MultipleOf(l, Value(x)) && MultipleOf(l, Value(y)) &&
            forall m: real :: MultipleOf(m, Value(x)) && MultipleOf(m, Value(y)) ==> MultipleOf(m, l)
  {
    var v := Value(LcmOf(x, y));
    LcmIsNotNegative(x, y);
    LcmIsMultipleOfBoth(x, y);
    forall m: real | MultipleOf(m, Value(x)) && MultipleOf(m, Value(y)) ensures MultipleOf(m, v) {
      LcmIsLeastMultiple(x, y, m);
    }
    if l >= 0.0 && MultipleOf(l, v) && MultipleOf(v, l) {
      MutualMultiples(l, v);
    }
  }
}
