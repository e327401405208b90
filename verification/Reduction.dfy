/** Why the in-place operators need no final normalisation: each divides by just enough beforehand. */
module Reduction {
  import opened Integers
  import opened RationalNumbers

  /** Exact quotients by a positive gcd, with everything later proofs ask of them. */
  lemma Split(a: int, b: int) returns (g: int, i: int, j: int)
    requires a != 0 || b != 0
    ensures g == Gcd(a, b) > 0 && a == g * i && b == g * j && Coprime(i, j)
    ensures i == TruncDiv(a, g) && j == TruncDiv(b, g)
    ensures (a > 0 ==> i > 0) && (b > 0 ==> j > 0)
  {
    g := Gcd(a, b);
    GcdPositive(a, b);
    i, j := GcdDivides(a, b);
    QuotientsCoprime(a, b, i, j);
    ExactDivision(a, g, i);
    ExactDivision(b, g, j);
    if a > 0 {
      SignOfFactor(a, g, i);
    }
    if b > 0 {
      SignOfFactor(b, g, j);
    }
  }

  /** With coprime b1, d1, the sum a d1 + c b1 shares nothing with b1 beyond what a does. */
  lemma SumCoprimeToPart(a: int, b1: int, c: int, d1: int, t: int, h: int, num: int)
    requires Coprime(a, b1) && Coprime(b1, d1)
    requires t == a * d1 + c * b1 && t == h * num
    ensures Coprime(num, b1)
  {
    CoprimeSymmetric(a, b1);
    CoprimeToProduct(b1, a, d1);
    CoprimeSymmetric(b1, a * d1);
    CoprimeAfterShift(a * d1, b1, c);
    CoprimeSymmetric(t, b1);
    assert t == num * h;
    CoprimeToFactor(b1, t, num, h);
    CoprimeSymmetric(b1, num);
  }

  /** The argument itself, on exact factors. */
  lemma SumSharesNothing(a: int, b: int, c: int, d: int, g: int, b1: int, d1: int, h: int, k: int, num: int)
    requires Coprime(a, b) && Coprime(c, d) && Coprime(b1, d1) && Coprime(num, k)
    requires b == g * b1 && d == g * d1 && h * num == a * d1 + c * b1
    ensures Coprime(num, b1 * (k * d1))
  {
    CoprimeToFactor(a, b, b1, g);
    CoprimeToFactor(c, d, d1, g);
    CoprimeSymmetric(b1, d1);
    SumCoprimeToPart(a, b1, c, d1, h * num, h, num);
    SumCoprimeToPart(c, d1, a, b1, h * num, h, num);
    CoprimeToProduct(num, k, d1);
    CoprimeToProduct(num, b1, k * d1);
  }

  lemma SumInLowestTerms(x: Fraction, y: Fraction, g: int, b1: int, d1: int, h: int, k: int, num: int)
    requires Normal(x) && Normal(y) && x.d == g * b1 && y.d == g * d1 && b1 > 0 && d1 > 0
    requires g == h * k && k > 0 && h * num == x.n * d1 + y.n * b1
    requires Coprime(b1, d1) && Coprime(num, k)
    ensures Plus(x, y) == Fraction(num, b1 * (k * d1))
  {
    SumSharesNothing(x.n, x.d, y.n, y.d, g, b1, d1, h, k, num);
    AtLeastFactors(k, d1);
    AtLeastFactors(b1, k * d1);
    SumCrossProduct(x.n, x.d, y.n, y.d, g, b1, d1, h, k, num);
    PlusIs(x, y, num, b1 * (k * d1));
  }

  lemma PlusIs(x: Fraction, y: Fraction, n: int, d: int)
    requires x.d != 0 && y.d != 0 && d > 0 && Coprime(n, d)
    requires n * (x.d * y.d) == (x.n * y.d + y.n * x.d) * d
    ensures Plus(x, y) == Fraction(n, d)
  {
    NonZeroProduct(x.d, y.d);
    CanonIsTheNormalForm(Fraction(n, d), x.n * y.d + y.n * x.d, x.d * y.d);
  }

  /** gcd(a d1 + c b1, b1 d1 g) = gcd(a d1 + c b1, g), so dividing by the right-hand side is enough:
      the fast sum is the lowest-terms form of the plain one. */
  lemma SumNeedsOneGcd(x: Fraction, y: Fraction)
    requires Normal(x) && Normal(y)
    ensures Gcd(x.d, y.d) > 0
    ensures var g := Gcd(x.d, y.d);
            var b1, d1 := TruncDiv(x.d, g), TruncDiv(y.d, g);
            var t := x.n * d1 + y.n * b1;
            Gcd(t, g) > 0 && Plus(x, y) == Fraction(TruncDiv(t, Gcd(t, g)), b1 * TruncDiv(y.d, Gcd(t, g)))
  {
    var g, b1, d1 := Split(x.d, y.d);
    var h, num, k := Split(x.n * d1 + y.n * b1, g);
    SumInLowestTerms(x, y, g, b1, d1, h, k, num);
    Regroup(h, k, d1);
    ExactDivision(y.d, h, k * d1);
  }

  lemma SumCrossProduct(a: int, b: int, c: int, d: int, g: int, b1: int, d1: int, h: int, k: int, num: int)
    requires b == g * b1 && d == g * d1 && h * num == a * d1 + c * b1 && g == h * k
    ensures num * (b * d) == (a * d + c * b) * (b1 * (k * d1))
  {
    calc {
      (a * (g * d1) + c * (g * b1)) * (b1 * (k * d1));
      { FactorSum(a, c, g, b1, d1); }
      (g * (a * d1 + c * b1)) * (b1 * (k * d1));
      (g * (h * num)) * (b1 * (k * d1));
      { RegroupSum(g, h, num, b1, k, d1); }
      num * (g * b1 * ((h * k) * d1));
    }
  }

  lemma FactorSum(a: int, c: int, g: int, b1: int, d1: int)
    ensures a * (g * d1) + c * (g * b1) == g * (a * d1 + c * b1)
  {
  }

  lemma RegroupSum(g: int, h: int, num: int, b1: int, k: int, d1: int)
    ensures g * (h * num) * (b1 * (k * d1)) == num * (g * b1 * (h * k * d1))
  {
  }

  /** A difference is a sum with the numerator negated. */
  lemma MinusIsPlusNegated(x: Fraction, y: Fraction)
    requires Normal(x) && Normal(y)
    ensures Normal(Fraction(-y.n, y.d)) && Minus(x, y) == Plus(x, Fraction(-y.n, y.d))
  {
    CoprimeNegated(y.n, y.d);
    Signs(y.n, x.d);
  }

  /** Cross-cancelling leaves nothing to cancel in the products. */
  lemma CrossCancelled(a: int, b: int, c: int, d: int, g1: int, g2: int)
    requires Coprime(a, b) && Coprime(c, d) && b != 0 && d != 0
    requires g1 == Gcd(a, d) && g2 == Gcd(c, b) && g1 > 0 && g2 > 0
    ensures var n', d' := TruncDiv(a, g1) * TruncDiv(c, g2), TruncDiv(b, g2) * TruncDiv(d, g1);
            Coprime(n', d') && n' * (b * d) == a * c * d' && d' != 0
  {
    var g1', a', d' := Split(a, d);
    var g2', c', b' := Split(c, b);
    assert a == a' * g1 && d == d' * g1 && c == c' * g2 && b == b' * g2;
    CoprimeFactors(a, b, a', g1, b', g2);
    CoprimeFactors(c, d, c', g2, d', g1);
    CoprimeToProduct(a', b', d');
    CoprimeSymmetric(c', d');
    CoprimeToProduct(c', b', d');
    CoprimeSymmetric(a', b' * d');
    CoprimeSymmetric(c', b' * d');
    CoprimeToProduct(b' * d', a', c');
    CoprimeSymmetric(b' * d', a' * c');
    RegroupProducts(a', b', c', d', g1, g2);
    NonZeroProduct(b', d');
  }

  lemma CoprimeFactors(a: int, b: int, a': int, g: int, b': int, h: int)
    requires Coprime(a, b) && a == a' * g && b == b' * h
    ensures Coprime(a', b')
  {
    CoprimeToFactor(a, b, b', h);
    CoprimeSymmetric(a, b');
    CoprimeToFactor(b', a, a', g);
    CoprimeSymmetric(b', a');
  }

  lemma RegroupProducts(a: int, b: int, c: int, d: int, g: int, h: int)
    ensures a * c * (b * h * (d * g)) == a * g * (c * h) * (b * d)
  {
  }

  /** A lowest-terms pair becomes the normal form by moving the sign into the numerator. */
  lemma SignMoved(n': int, d': int, n: int, d: int)
    requires Coprime(n', d') && d' != 0 && d != 0 && n' * d == n * d'
    ensures Canon(n, d) == if d' > 0 then Fraction(n', d') else Fraction(-n', -d')
  {
    CoprimeNegated(n', d');
    CoprimeNegated(-n', d');
    Signs(n', d);
    Signs(n, d');
    CanonIsTheNormalForm(if d' > 0 then Fraction(n', d') else Fraction(-n', -d'), n, d);
  }

  /** What dividing by the gcd leaves, before the sign is moved. */
  lemma NormalizedParts(n: int, d: int)
    requires d != 0
    ensures n == 0 ==> Canon(n, d) == Fraction(0, 1)
    ensures Gcd(n, d) != 0
    ensures var i, j := TruncDiv(n, Gcd(n, d)), TruncDiv(d, Gcd(n, d));
            && (d > 0 ==> j > 0 && Canon(n, d) == Fraction(i, j))
            && (d < 0 ==> j < 0 && Canon(n, d) == Fraction(-i, -j))
  {
    GcdPositive(n, d);
    LowestTerms(n, d);
    SignMoved(TruncDiv(n, Gcd(n, d)), TruncDiv(d, Gcd(n, d)), n, d);
    if n == 0 {
      EuclidOfZero(1);
      CanonIsTheNormalForm(Fraction(0, 1), n, d);
    }
  }

  /** The cross-cancelled products are the product in lowest terms. */
  lemma ProductNeedsNoGcd(x: Fraction, y: Fraction, g1: int, g2: int)
    requires Normal(x) && Normal(y) && g1 == Gcd(x.n, y.d) && g2 == Gcd(y.n, x.d)
    ensures g1 > 0 && g2 > 0
    ensures Times(x, y) == Fraction(TruncDiv(x.n, g1) * TruncDiv(y.n, g2), TruncDiv(x.d, g2) * TruncDiv(y.d, g1))
  {
    GcdPositive(x.n, y.d);
    GcdPositive(y.n, x.d);
    CrossCancelled(x.n, x.d, y.n, y.d, g1, g2);
    NonZeroProduct(x.d, y.d);
    var g1', a', d' := Split(x.n, y.d);
    var g2', c', b' := Split(y.n, x.d);
    AtLeastFactors(b', d');
    CanonIsTheNormalForm(Fraction(a' * c', b' * d'), x.n * y.n, x.d * y.d);
  }

  /** The cross-cancelled quotient is in lowest terms up to the sign of its denominator. */
  lemma QuotientNeedsNoGcd(x: Fraction, y: Fraction, g1: int, g2: int)
    requires Normal(x) && Normal(y) && y.n != 0 && g1 == Gcd(x.n, y.n) && g2 == Gcd(y.d, x.d)
    ensures g1 > 0 && g2 > 0
    ensures var n, d := TruncDiv(x.n, g1) * TruncDiv(y.d, g2), TruncDiv(x.d, g2) * TruncDiv(y.n, g1);
            d != 0 && Over(x, y) == if d > 0 then Fraction(n, d) else Fraction(-n, -d)
  {
    GcdPositive(x.n, y.n);
    GcdPositive(y.d, x.d);
    CoprimeSymmetric(y.n, y.d);
    CrossCancelled(x.n, x.d, y.d, y.n, g1, g2);
    NonZeroProduct(x.d, y.n);
    SignMoved(TruncDiv(x.n, g1) * TruncDiv(y.d, g2), TruncDiv(x.d, g2) * TruncDiv(y.n, g1),
              x.n * y.d, x.d * y.n);
  }

  lemma ZeroIsOverOne(x: Fraction)
    requires Normal(x) && x.n == 0
    ensures x == Fraction(0, 1)
  {
    GcdBound(x.n, x.d);
    var i, j := GcdDivides(0, x.d);
    EuclidOfZero(x.d);
  }

  lemma EuclidOfZero(b: nat)
    ensures Euclid(0, b) == b
  {
  }

  lemma EuclidOfEqual(a: nat)
    requires a > 0
    ensures Euclid(a, a) == a
  {
    assert a % a == 0;
  }

  lemma GcdWithOne(a: int)
    ensures Gcd(a, 1) == 1 && Gcd(1, a) == 1
  {
    CoprimeBy(a, 1, 0, 1);
    CoprimeBy(1, a, 1, 0);
  }

  // ----- The normalisation test

  /** Euclid's algorithm with C++ remainders: signs come and go on the way. */
  function InnerGcd(a: int, b: int): int
    decreases Abs(b)
  {
    if b == 0 then a
    else
      TruncDivMod(a, b);
      InnerGcd(b, TruncMod(a, b))
  }

  /** Whatever the signs, its magnitude is the gcd. */
  lemma {:induction false} InnerGcdIsGcd(a: int, b: int)
    ensures Abs(InnerGcd(a, b)) == Gcd(a, b)
    decreases Abs(b)
  {
    if b != 0 {
      TruncDivMod(a, b);
      InnerGcdIsGcd(b, TruncMod(a, b));
      assert Abs(TruncMod(a, b)) == Abs(a) % Abs(b);
    }
  }

  /** The source's test for a converting constructor. */
  predicate IsNormalized(n: int, d: int) {
    d > 0 && (n != 0 || d == 1) && Abs(InnerGcd(n, d)) == 1
  }

  lemma IsNormalizedIsNormal(n: int, d: int)
    ensures IsNormalized(n, d) <==> Normal(Fraction(n, d))
  {
    InnerGcdIsGcd(n, d);
    if d > 0 && n == 0 {
      EuclidOfZero(d);
    }
  }
}
