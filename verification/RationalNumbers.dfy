/** Fractions as values: the lowest-terms form, the exact number it stands for, and the arithmetic that
    the in-place operators must agree with. */
module RationalNumbers {
  import opened Integers

  datatype Fraction = Fraction(n: int, d: int)

  /** Lowest terms, positive denominator. */
  predicate Normal(x: Fraction) {
    x.d > 0 && Coprime(x.n, x.d)
  }

  ghost function Value(x: Fraction): real
    requires x.d != 0
  {
    x.n as real / x.d as real
  }

  /** The lowest-terms form of n/d: there is exactly one. */
  ghost function Canon(n: int, d: int): (x: Fraction)
    requires d != 0
    ensures Normal(x) && x.n * d == n * x.d
  {
    LowestTermsExist(n, d);
    var x :| Normal(x) && x.n * d == n * x.d;
    x
  }

  ghost function Plus(x: Fraction, y: Fraction): (z: Fraction)
    requires x.d != 0 && y.d != 0
    ensures Normal(z)
  {
    NonZeroProduct(x.d, y.d);
    Canon(x.n * y.d + y.n * x.d, x.d * y.d)
  }

  ghost function Minus(x: Fraction, y: Fraction): (z: Fraction)
    requires x.d != 0 && y.d != 0
    ensures Normal(z)
  {
    NonZeroProduct(x.d, y.d);
    Canon(x.n * y.d - y.n * x.d, x.d * y.d)
  }

  ghost function Times(x: Fraction, y: Fraction): (z: Fraction)
    requires x.d != 0 && y.d != 0
    ensures Normal(z)
  {
    NonZeroProduct(x.d, y.d);
    Canon(x.n * y.n, x.d * y.d)
  }

  ghost function Over(x: Fraction, y: Fraction): (z: Fraction)
    requires x.d != 0 && y.d != 0 && y.n != 0
    ensures Normal(z)
  {
    NonZeroProduct(x.d, y.n);
    Canon(x.n * y.d, x.d * y.n)
  }

  /** Dividing both parts by their gcd, and moving the sign up, gives the lowest-terms form. */
  lemma LowestTerms(n: int, d: int)
    requires d != 0 && Gcd(n, d) != 0
    ensures var i, j := TruncDiv(n, Gcd(n, d)), TruncDiv(d, Gcd(n, d));
            && n == Gcd(n, d) * i && d == Gcd(n, d) * j && i * d == n * j && -i * d == n * -j
            && Coprime(i, j) && Coprime(-i, -j) && (d > 0 <==> j > 0) && j != 0
  {
    var g := Gcd(n, d);
    var i, j := GcdDivides(n, d);
    ExactDivision(n, g, i);
    ExactDivision(d, g, j);
    QuotientsCoprime(n, d, i, j);
    CoprimeNegated(i, j);
    CoprimeNegated(-i, j);
    CrossProduct(g, i, j);
    Signs(i, d);
    Signs(n, j);
    SignOfFactor(d, g, j);
  }

  lemma LowestTermsExist(n: int, d: int)
    requires d != 0
    ensures exists x: Fraction :: Normal(x) && x.n * d == n * x.d
  {
    GcdPositive(n, d);
    LowestTerms(n, d);
    var i, j := TruncDiv(n, Gcd(n, d)), TruncDiv(d, Gcd(n, d));
    var x := if d > 0 then Fraction(i, j) else Fraction(-i, -j);
    assert Normal(x) && x.n * d == n * x.d;
  }

  lemma CrossProduct(g: int, i: int, j: int)
    ensures i * (g * j) == g * i * j
  {
  }

  lemma NonZeroProduct(a: int, b: int)
    requires a != 0 && b != 0
    ensures a * b != 0
  {
  }

  // ----- The lowest-terms form exists and is unique

  lemma SignOfFactor(a: int, g: nat, k: int)
    requires a == g * k && a != 0
    ensures a > 0 <==> k > 0
  {
    if k < 0 {
      Signs(g, -k);
      AtLeastFactors(g, -k);
    }
  }

  /** The denominator of a lowest-terms form divides that of every form of the same number. */
  lemma DenominatorDivides(x: Fraction, n: int, d: int)
    requires Normal(x) && x.n * d == n * x.d
    ensures Divides(x.d, d)
  {
    CoprimeSymmetric(x.n, x.d);
    DividesBy(x.d, x.n * d, n);
    CoprimeDivisorOfProduct(x.d, x.n, d);
  }

  /** Two lowest-terms forms of the same number are field-wise equal. */
  lemma NormalFormIsUnique(x: Fraction, y: Fraction)
    requires Normal(x) && Normal(y) && x.n * y.d == y.n * x.d
    ensures x == y
  {
    DenominatorDivides(x, y.n, y.d);
    DenominatorDivides(y, x.n, x.d);
    MutualDivisors(x.d, y.d);
    EqualFactors(x.n, y.n, x.d);
  }

  /** x/x' == n/d == y/y' makes the outer two equal. */
  lemma CrossTransitive(x: int, x': int, n: int, d: int, y: int, y': int)
    requires d != 0 && x * d == n * x' && y * d == n * y'
    ensures x * y' == y * x'
  {
    assert (x * y') * d == (x * d) * y' == (n * x') * y';
    assert (y * x') * d == (y * d) * x' == (n * y') * x';
    EqualFactors(x * y', y * x', d);
  }

  lemma CanonIsTheNormalForm(x: Fraction, n: int, d: int)
    requires d != 0 && Normal(x) && x.n * d == n * x.d
    ensures x == Canon(n, d)
  {
    var y := Canon(n, d);
    CrossTransitive(x.n, x.d, n, d, y.n, y.d);
    NormalFormIsUnique(x, y);
  }

  // ----- Exact values

  lemma EqualQuotients(a: real, b: real, c: real, d: real)
    requires b != 0.0 && d != 0.0
    ensures a / b == c / d <==> a * d == c * b
  {
    var x, y := a / b, c / d;
    assert a == x * b && c == y * d;
    assert a * d - c * b == (x - y) * (b * d);
  }

  lemma EqualValues(x: Fraction, y: Fraction)
    requires x.d != 0 && y.d != 0
    ensures Value(x) == Value(y) <==> x.n * y.d == y.n * x.d
  {
    EqualQuotients(x.n as real, x.d as real, y.n as real, y.d as real);
    assert (x.n * y.d) as real == x.n as real * y.d as real;
    assert (y.n * x.d) as real == y.n as real * x.d as real;
  }

  /** Positive denominators: comparing values is comparing cross products. */
  lemma OrderedValues(x: Fraction, y: Fraction)
    requires x.d > 0 && y.d > 0
    ensures Value(x) < Value(y) <==> x.n * y.d < y.n * x.d
  {
    var a, b, c, d := x.n as real, x.d as real, y.n as real, y.d as real;
    var v, w := a / b, c / d;
    assert a == v * b && c == w * d;
    assert c * b - a * d == (w - v) * (b * d);
    assert b * d > 0.0;
    assert (x.n * y.d) as real == a * d && (y.n * x.d) as real == c * b;
    SignOfProduct(w - v, b * d);
  }

  lemma SignOfProduct(a: real, b: real)
    requires b > 0.0
    ensures a * b > 0.0 <==> a > 0.0
  {
  }

  /** Field-wise equality of normal forms is equality of the numbers. */
  lemma NormalFormIsCanonical(x: Fraction, y: Fraction)
    requires Normal(x) && Normal(y)
    ensures x == y <==> x.n * y.d == y.n * x.d
    ensures x == y <==> Value(x) == Value(y)
  {
    EqualValues(x, y);
    if x.n * y.d == y.n * x.d {
      NormalFormIsUnique(x, y);
    }
  }

  lemma CanonValue(n: int, d: int)
    requires d != 0
    ensures Value(Canon(n, d)) == n as real / d as real
  {
    EqualValues(Canon(n, d), Fraction(n, d));
  }

  lemma SumIsExact(x: Fraction, y: Fraction)
    requires x.d != 0 && y.d != 0
    ensures Value(Plus(x, y)) == Value(x) + Value(y)
  {
    NonZeroProduct(x.d, y.d);
    CanonValue(x.n * y.d + y.n * x.d, x.d * y.d);
    IntegerSums(x.n, x.d, y.n, y.d);
  }

  lemma DifferenceIsExact(x: Fraction, y: Fraction)
    requires x.d != 0 && y.d != 0
    ensures Value(Minus(x, y)) == Value(x) - Value(y)
  {
    NonZeroProduct(x.d, y.d);
    CanonValue(x.n * y.d - y.n * x.d, x.d * y.d);
    IntegerSums(x.n, x.d, y.n, y.d);
  }

  lemma ProductIsExact(x: Fraction, y: Fraction)
    requires x.d != 0 && y.d != 0
    ensures Value(Times(x, y)) == Value(x) * Value(y)
  {
    NonZeroProduct(x.d, y.d);
    CanonValue(x.n * y.n, x.d * y.d);
    IntegerProducts(x.n, x.d, y.n, y.d);
  }

  lemma QuotientIsExact(x: Fraction, y: Fraction)
    requires x.d != 0 && y.d != 0 && y.n != 0
    ensures Value(y) != 0.0 && Value(Over(x, y)) == Value(x) / Value(y)
  {
    NonZeroProduct(x.d, y.n);
    CanonValue(x.n * y.d, x.d * y.n);
    IntegerQuotients(x.n, x.d, y.n, y.d);
    EqualValues(y, Fraction(0, 1));
  }

  lemma RealProduct(a: int, b: int)
    ensures (a * b) as real == a as real * b as real
  {
  }

  lemma IntegerSums(a: int, b: int, c: int, d: int)
    requires b != 0 && d != 0 && b * d != 0
    ensures (a * d + c * b) as real / (b * d) as real == a as real / b as real + c as real / d as real
    ensures (a * d - c * b) as real / (b * d) as real == a as real / b as real - c as real / d as real
  {
    RealProduct(a, d);
    RealProduct(c, b);
    RealProduct(b, d);
    SumOfQuotients(a as real, b as real, c as real, d as real, (a * d) as real, (c * b) as real, (b * d) as real);
  }

  lemma IntegerProducts(a: int, b: int, c: int, d: int)
    requires b != 0 && d != 0 && b * d != 0
    ensures (a * c) as real / (b * d) as real == (a as real / b as real) * (c as real / d as real)
  {
    RealProduct(a, c);
    RealProduct(b, d);
    ProductOfQuotients(a as real, b as real, c as real, d as real, (a * c) as real, (b * d) as real);
  }

  lemma IntegerQuotients(a: int, b: int, c: int, d: int)
    requires b != 0 && d != 0 && c != 0 && b * c != 0
    ensures c as real / d as real != 0.0
    ensures (a * d) as real / (b * c) as real == (a as real / b as real) / (c as real / d as real)
  {
    RealProduct(a, d);
    RealProduct(b, c);
    QuotientOfQuotients(a as real, b as real, c as real, d as real, (a * d) as real, (b * c) as real);
  }

  // ----- Field laws as equality of stored fields

  lemma SameNumber(x: Fraction, y: Fraction)
    requires Normal(x) && Normal(y) && Value(x) == Value(y)
    ensures x == y
  {
    NormalFormIsCanonical(x, y);
  }

  lemma AdditionCommutes(x: Fraction, y: Fraction)
    requires Normal(x) && Normal(y)
    ensures Plus(x, y) == Plus(y, x)
  {
    SumIsExact(x, y);
    SumIsExact(y, x);
    SameNumber(Plus(x, y), Plus(y, x));
  }

  lemma AdditionAssociates(x: Fraction, y: Fraction, z: Fraction)
    requires Normal(x) && Normal(y) && Normal(z)
    ensures Plus(Plus(x, y), z) == Plus(x, Plus(y, z))
  {
    SumIsExact(x, y);
    SumIsExact(y, z);
    SumIsExact(Plus(x, y), z);
    SumIsExact(x, Plus(y, z));
    SameNumber(Plus(Plus(x, y), z), Plus(x, Plus(y, z)));
  }

  lemma SubtractionUndoesAddition(x: Fraction, y: Fraction)
    requires Normal(x) && Normal(y)
    ensures Minus(Plus(x, y), y) == x
  {
    SumIsExact(x, y);
    DifferenceIsExact(Plus(x, y), y);
    SameNumber(Minus(Plus(x, y), y), x);
  }

  lemma MultiplicationCommutes(x: Fraction, y: Fraction)
    requires Normal(x) && Normal(y)
    ensures Times(x, y) == Times(y, x)
  {
    ProductIsExact(x, y);
    ProductIsExact(y, x);
    SameNumber(Times(x, y), Times(y, x));
  }

  lemma MultiplicationAssociates(x: Fraction, y: Fraction, z: Fraction)
    requires Normal(x) && Normal(y) && Normal(z)
    ensures Times(Times(x, y), z) == Times(x, Times(y, z))
  {
    ProductIsExact(x, y);
    ProductIsExact(y, z);
    ProductIsExact(Times(x, y), z);
    ProductIsExact(x, Times(y, z));
    MultiplyReals(Value(x), Value(y), Value(z));
    SameNumber(Times(Times(x, y), z), Times(x, Times(y, z)));
  }

  lemma DivisionUndoesMultiplication(x: Fraction, y: Fraction)
    requires Normal(x) && Normal(y) && y.n != 0
    ensures Over(Times(x, y), y) == x
  {
    ProductIsExact(x, y);
    QuotientIsExact(Times(x, y), y);
    SameNumber(Over(Times(x, y), y), x);
  }

  lemma MultiplicationDistributes(x: Fraction, y: Fraction, z: Fraction)
    requires Normal(x) && Normal(y) && Normal(z)
    ensures Times(x, Plus(y, z)) == Plus(Times(x, y), Times(x, z))
  {
    SumIsExact(y, z);
    ProductIsExact(x, y);
    ProductIsExact(x, z);
    ProductIsExact(x, Plus(y, z));
    SumIsExact(Times(x, y), Times(x, z));
    MultiplyReals(Value(x), Value(y), Value(z));
    SameNumber(Times(x, Plus(y, z)), Plus(Times(x, y), Times(x, z)));
  }

  lemma MultiplyReals(a: real, b: real, c: real)
    ensures a * b * c == a * (b * c) && a * (b + c) == a * b + a * c
  {
  }

  /** q is the quotient p/r. */
  lemma QuotientIs(p: real, r: real, q: real)
    requires r != 0.0 && p == q * r
    ensures p / r == q
  {
  }

  lemma SumOfQuotients(a: real, b: real, c: real, d: real, p: real, q: real, r: real)
    requires b != 0.0 && d != 0.0 && r != 0.0 && p == a * d && q == c * b && r == b * d
    ensures (p + q) / r == a / b + c / d && (p - q) / r == a / b - c / d
  {
    var v, w := a / b, c / d;
    assert p == v * r by {
      RegroupReal(v, b, d);
    }
    assert q == w * r by {
      RegroupReal(w, d, b);
      assert d * b == r;
    }
    assert p + q == (v + w) * r && p - q == (v - w) * r;
    QuotientIs(p + q, r, v + w);
    QuotientIs(p - q, r, v - w);
  }

  lemma RegroupReal(a: real, b: real, c: real)
    ensures a * b * c == a * (b * c)
  {
  }

  lemma ProductOfQuotients(a: real, b: real, c: real, d: real, p: real, r: real)
    requires b != 0.0 && d != 0.0 && r != 0.0 && p == a * c && r == b * d
    ensures p / r == (a / b) * (c / d)
  {
    var v, w := a / b, c / d;
    MixFactors(v, b, w, d);
    QuotientIs(p, r, v * w);
  }

  lemma MixFactors(v: real, b: real, w: real, d: real)
    ensures v * b * (w * d) == v * w * (b * d)
  {
  }

  lemma QuotientOfQuotients(a: real, b: real, c: real, d: real, p: real, r: real)
    requires b != 0.0 && c != 0.0 && d != 0.0 && r != 0.0 && p == a * d && r == b * c
    ensures c / d != 0.0 && p / r == (a / b) / (c / d)
  {
    var v, w := a / b, c / d;
    var u := v / w;
    assert v == u * w;
    MixThree(u, w, b, d);
    QuotientIs(p, r, u);
  }

  lemma MixThree(u: real, w: real, b: real, d: real)
    ensures u * w * b * d == u * (b * (w * d))
  {
  }
}
