/** Integer division as C++ truncates it, and the divisibility facts behind reduced fractions. The
    gcd and lcm of `boost::integer` are taken as the non-negative mathematical ones. */
module Integers {

  function Abs(a: int): nat {
    if a < 0 then -a else a
  }

  /** Division truncated toward zero. */
  function TruncDiv(a: int, b: int): int
    requires b != 0
  {
    if (a < 0) == (b < 0) then Abs(a) / Abs(b) else -(Abs(a) / Abs(b))
  }

  /** The remainder that goes with it: it has the sign of the dividend. */
  function TruncMod(a: int, b: int): int
    requires b != 0
  {
    if a < 0 then -(Abs(a) % Abs(b)) else Abs(a) % Abs(b)
  }

  lemma AbsProduct(a: int, b: int)
    ensures Abs(a * b) == Abs(a) * Abs(b)
  {
    Signs(a, b);
    if (a < 0) == (b < 0) {
      assert a * b == Abs(a) * Abs(b) >= 0;
    } else {
      assert -(a * b) == Abs(a) * Abs(b) >= 0;
    }
  }

  lemma Signs(a: int, b: int)
    ensures -a * b == -(a * b) == a * -b && -a * -b == a * b
  {
  }

  lemma AtLeastFactors(a: nat, b: nat)
    requires a > 0 && b > 0
    ensures a * b >= a && a * b >= b
  {
    assert a * b == a + a * (b - 1) == b + (a - 1) * b;
  }

  lemma TruncDivMod(a: int, b: int)
    requires b != 0
    ensures a == b * TruncDiv(a, b) + TruncMod(a, b)
    ensures Abs(TruncMod(a, b)) < Abs(b) && (TruncMod(a, b) < 0 ==> a < 0) && (TruncMod(a, b) > 0 ==> a > 0)
  {
    var q, r := NatDivMod(Abs(a), Abs(b));
    Signs(b, q);
  }

  lemma NatDivMod(a: nat, b: nat) returns (q: nat, r: nat)
    requires b > 0
    ensures q == a / b && r == a % b && a == b * q + r && r < b
  {
    q, r := a / b, a % b;
  }

  /** What is asked of an integer type: two's complement with a maximum, or unlimited precision, for which
      the maximum is whatever the type reports. */
  datatype Limits = Unlimited(max: nat) | TwosComplement(max: nat)

  /** Zero and one are values of every integer type. */
  type IntegerType = t: Limits | t.TwosComplement? ==> t.max > 0 witness Unlimited(0)

  predicate Fits(v: int, range: IntegerType) {
    range.TwosComplement? ==> -1 - range.max <= v <= range.max
  }

  /** The lowest value of a two's-complement type, the one without a negative. */
  predicate IsLowest(v: int, range: IntegerType) {
    range.TwosComplement? && v == -1 - range.max
  }

  function Euclid(a: nat, b: nat): nat
    decreases b
  {
    if b == 0 then a else Euclid(b, a % b)
  }

  function Gcd(a: int, b: int): nat {
    Euclid(Abs(a), Abs(b))
  }

  function Lcm(a: int, b: int): nat {
    if Gcd(a, b) == 0 then 0 else NatTimes(NatDiv(Abs(a), Gcd(a, b)), Abs(b))
  }

  function NatDiv(a: nat, b: nat): nat
    requires b > 0
  {
    a / b
  }

  function NatTimes(a: nat, b: nat): nat {
    a * b
  }

  /** a is d times some integer. */
  ghost predicate Divides(d: int, a: int) {
    exists k: int :: IsProduct(a, d, k)
  }

  predicate IsProduct(a: int, d: int, k: int) {
    a == d * k
  }

  predicate Coprime(a: int, b: int) {
    Gcd(a, b) == 1
  }

  lemma DividesBy(d: int, a: int, k: int)
    requires a == d * k
    ensures Divides(d, a)
  {
    assert IsProduct(a, d, k);
  }

  lemma Quotient(d: int, a: int) returns (k: int)
    requires Divides(d, a)
    ensures a == d * k
  {
    k :| IsProduct(a, d, k);
  }

  /** An exact division does not depend on the rounding. */
  lemma ExactDivision(a: int, d: int, k: int)
    requires d != 0 && a == d * k
    ensures TruncDiv(a, d) == k
  {
    TruncDivMod(a, d);
    var q := TruncDiv(a, d);
    assert d * (k - q) == d * k - d * q;
    MultipleInRange(d, k - q);
  }

  lemma DividedByOne(a: int)
    ensures TruncDiv(a, 1) == a
  {
    ExactDivision(a, 1, a);
  }

  lemma MultipleInRange(d: int, k: int)
    requires Abs(d * k) < Abs(d)
    ensures k == 0
  {
    AbsProduct(d, k);
    if k != 0 && d != 0 {
      AtLeastFactors(Abs(d), Abs(k));
    }
  }

  // ----- Greatest common divisors

  lemma {:induction false} EuclidBezout(a: nat, b: nat) returns (s: int, t: int)
    ensures a * s + b * t == Euclid(a, b)
    decreases b
  {
    if b == 0 {
      s, t := 1, 0;
    } else {
      var q, r := NatDivMod(a, b);
      var u, v := EuclidBezout(b, r);
      s, t := v, u - q * v;
      BezoutStep(a, b, q, r, u, v);
    }
  }

  lemma BezoutStep(a: int, b: int, q: int, r: int, u: int, v: int)
    requires a == b * q + r
    ensures a * v + b * (u - q * v) == b * u + r * v
  {
    assert (b * q + r) * v + b * (u - q * v) == b * u + r * v;
  }

  lemma {:induction false} EuclidDivides(a: nat, b: nat)
    ensures Divides(Euclid(a, b), a) && Divides(Euclid(a, b), b)
    decreases b
  {
    var g := Euclid(a, b);
    if b == 0 {
      DividesBy(g, a, 1);
      DividesBy(g, b, 0);
    } else {
      var q, r := NatDivMod(a, b);
      EuclidDivides(b, r);
      var i := Quotient(g, b);
      var j := Quotient(g, r);
      Combine(g, i, q, j, 1);
      DividesBy(g, a, i * q + j);
    }
  }

  /** The gcd is an integer combination of its arguments. */
  lemma Bezout(a: int, b: int) returns (s: int, t: int)
    ensures a * s + b * t == Gcd(a, b)
  {
    s, t := EuclidBezout(Abs(a), Abs(b));
    if a < 0 {
      assert Abs(a) * s == a * -s;
      s := -s;
    }
    if b < 0 {
      assert Abs(b) * t == b * -t;
      t := -t;
    }
  }

  lemma GcdDivides(a: int, b: int) returns (i: int, j: int)
    ensures a == Gcd(a, b) * i && b == Gcd(a, b) * j
  {
    var g := Gcd(a, b);
    EuclidDivides(Abs(a), Abs(b));
    i := Quotient(g, Abs(a));
    j := Quotient(g, Abs(b));
    if a < 0 {
      assert g * -i == -(g * i);
      i := -i;
    }
    if b < 0 {
      assert g * -j == -(g * j);
      j := -j;
    }
  }

  /** Every common divisor divides the gcd. */
  lemma GcdIsGreatest(a: int, b: int, d: int)
    requires Divides(d, a) && Divides(d, b)
    ensures Divides(d, Gcd(a, b))
  {
    var i := Quotient(d, a);
    var j := Quotient(d, b);
    var s, t := Bezout(a, b);
    Combine(d, i, s, j, t);
    DividesBy(d, Gcd(a, b), i * s + j * t);
  }

  lemma GcdPositive(a: int, b: int)
    ensures Gcd(a, b) == 0 <==> a == 0 && b == 0
  {
    var i, j := GcdDivides(a, b);
    if a == 0 && b == 0 {
      assert Euclid(0, 0) == 0;
    }
  }

  /** A non-zero argument bounds the gcd. */
  lemma GcdBound(a: int, b: int)
    ensures (a != 0 ==> Gcd(a, b) <= Abs(a)) && (b != 0 ==> Gcd(a, b) <= Abs(b))
  {
    var i, j := GcdDivides(a, b);
    if a != 0 {
      FactorBound(a, Gcd(a, b), i);
    }
    if b != 0 {
      FactorBound(b, Gcd(a, b), j);
    }
  }

  lemma FactorBound(a: int, d: int, k: int)
    requires a == d * k && a != 0
    ensures 0 < Abs(d) <= Abs(a) && 0 < Abs(k) <= Abs(a)
  {
    AbsProduct(d, k);
    AtLeastFactors(Abs(d), Abs(k));
  }

  /** Two multiples of g combine to a multiple of g. */
  lemma Combine(g: int, i: int, s: int, j: int, t: int)
    ensures g * i * s + g * j * t == g * (i * s + j * t)
  {
  }

  // ----- Coprime numbers

  lemma CoprimeBy(a: int, b: int, s: int, t: int)
    requires a * s + b * t == 1
    ensures Coprime(a, b)
  {
    var g := Gcd(a, b);
    var i, j := GcdDivides(a, b);
    Combine(g, i, s, j, t);
    FactorBound(1, g, i * s + j * t);
  }

  lemma CoprimeSymmetric(a: int, b: int)
    requires Coprime(a, b)
    ensures Coprime(b, a)
  {
    var s, t := Bezout(a, b);
    CoprimeBy(b, a, t, s);
  }

  lemma CoprimeToProduct(a: int, b: int, c: int)
    requires Coprime(a, b) && Coprime(a, c)
    ensures Coprime(a, b * c)
  {
    var s, t := Bezout(a, b);
    var u, v := Bezout(a, c);
    var x, y := a * s + b * t, a * u + c * v;
    assert x * y == 1;
    MultiplyBezout(a, b, c, s, t, u, v);
    CoprimeBy(a, b * c, s * y + b * t * u, t * v);
  }

  lemma MultiplyBezout(a: int, b: int, c: int, s: int, t: int, u: int, v: int)
    ensures (a * s + b * t) * (a * u + c * v) == a * (s * (a * u + c * v) + b * t * u) + b * c * (t * v)
  {
  }

  lemma CoprimeToFactor(a: int, b: int, d: int, k: int)
    requires Coprime(a, b) && b == d * k
    ensures Coprime(a, d)
  {
    var s, t := Bezout(a, b);
    assert d * k * t == d * (k * t);
    CoprimeBy(a, d, s, k * t);
  }

  /** Adding a multiple of b does not change what a shares with b. */
  lemma CoprimeAfterShift(a: int, b: int, k: int)
    requires Coprime(a, b)
    ensures Coprime(a + k * b, b)
  {
    var s, t := Bezout(a, b);
    assert (a + k * b) * s + b * (t - k * s) == a * s + b * t + (k * b * s - b * (k * s));
    assert k * b * s == b * (k * s);
    CoprimeBy(a + k * b, b, s, t - k * s);
  }

  lemma CoprimeNegated(a: int, b: int)
    requires Coprime(a, b)
    ensures Coprime(-a, b) && Coprime(a, -b)
  {
    assert Abs(-a) == Abs(a) && Abs(-b) == Abs(b);
  }

  /** Divided by their gcd, two numbers are coprime. */
  lemma QuotientsCoprime(a: int, b: int, i: int, j: int)
    requires Gcd(a, b) != 0 && a == Gcd(a, b) * i && b == Gcd(a, b) * j
    ensures Coprime(i, j)
  {
    var g := Gcd(a, b);
    var s, t := Bezout(a, b);
    Combine(g, i, s, j, t);
    assert g * (i * s + j * t - 1) == g * (i * s + j * t) - g;
    MultipleInRange(g, i * s + j * t - 1);
    CoprimeBy(i, j, s, t);
  }

  /** Euclid's lemma. */
  lemma CoprimeDivisorOfProduct(a: int, b: int, c: int)
    requires Coprime(a, b) && Divides(a, b * c)
    ensures Divides(a, c)
  {
    var s, t := Bezout(a, b);
    var k := Quotient(a, b * c);
    ScaleCombination(a, b, c, s, t, k);
    DividesBy(a, c, c * s + k * t);
  }

  lemma ScaleCombination(a: int, b: int, c: int, s: int, t: int, k: int)
    requires a * s + b * t == 1 && b * c == a * k
    ensures c == a * (c * s + k * t)
  {
    assert c * (a * s + b * t) == a * (c * s) + b * c * t;
    assert a * k * t == a * (k * t);
  }

  lemma MutualDivisors(a: int, b: int)
    requires a > 0 && b > 0 && Divides(a, b) && Divides(b, a)
    ensures a == b
  {
    var i := Quotient(a, b);
    var j := Quotient(b, a);
    FactorBound(b, a, i);
    FactorBound(a, b, j);
  }

  lemma GcdSymmetric(a: int, b: int)
    ensures Gcd(a, b) == Gcd(b, a)
  {
    GcdPositive(a, b);
    GcdPositive(b, a);
    var i, j := GcdDivides(a, b);
    var k, l := GcdDivides(b, a);
    DividesBy(Gcd(a, b), a, i);
    DividesBy(Gcd(a, b), b, j);
    DividesBy(Gcd(b, a), b, k);
    DividesBy(Gcd(b, a), a, l);
    GcdIsGreatest(a, b, Gcd(b, a));
    GcdIsGreatest(b, a, Gcd(a, b));
    if Gcd(a, b) > 0 {
      MutualDivisors(Gcd(a, b), Gcd(b, a));
    }
  }

  lemma Regroup(a: int, b: int, c: int)
    ensures a * (b * c) == a * b * c
  {
  }

  lemma GcdTimesLcm(a: int, b: int)
    ensures Gcd(a, b) * Lcm(a, b) == Abs(a) * Abs(b)
  {
    var g := Gcd(a, b);
    GcdPositive(a, b);
    if g != 0 {
      var i, j := GcdDivides(Abs(a), b);
      assert Abs(Abs(a)) == Abs(a);
      ExactDivision(Abs(a), g, i);
      TruncDivMod(Abs(a), g);
      Regroup(g, i, Abs(b));
    }
  }

  lemma EqualFactors(a: int, b: int, d: int)
    requires a * d == b * d && d != 0
    ensures a == b
  {
    assert d * (a - b) == 0;
    MultipleInRange(d, a - b);
  }

  lemma LcmSymmetric(a: int, b: int)
    ensures Lcm(a, b) == Lcm(b, a)
  {
    GcdSymmetric(a, b);
    if Gcd(a, b) > 0 {
      GcdTimesLcm(a, b);
      GcdTimesLcm(b, a);
      EqualFactors(Lcm(a, b), Lcm(b, a), Gcd(a, b));
    }
  }

  lemma LcmIsMultiple(a: int, b: int)
    ensures Divides(a, Lcm(a, b))
  {
    var g := Gcd(a, b);
    if g == 0 {
      DividesBy(a, 0, 0);
    } else {
      var i, j := GcdDivides(a, b);
      GcdTimesLcm(a, b);
      AbsProduct(g, j);
      RegroupFactors(g, Abs(a), Abs(j));
      EqualFactors(Lcm(a, b), Abs(a) * Abs(j), g);
      var k: int := Abs(j);
      Signs(a, k);
      DividesBy(a, Lcm(a, b), if a < 0 then -k else k);
    }
  }

  lemma RegroupFactors(g: int, a: int, j: int)
    ensures a * (g * j) == a * j * g
  {
  }

  /** The lcm divides every common multiple. */
  lemma LcmIsLeast(a: int, b: int, n: int)
    requires Divides(a, n) && Divides(b, n)
    ensures Divides(Lcm(a, b), n)
  {
    var g := Gcd(a, b);
    var i := Quotient(a, n);
    var j := Quotient(b, n);
    if g == 0 {
      GcdPositive(a, b);
      DividesBy(0, n, 0);
    } else {
      var s, t := Bezout(a, b);
      var k := s * j + t * i;
      GcdTimesLcm(a, b);
      AbsProduct(a, b);
      CombineQuotients(a, b, n, i, j, s, t, g);
      var signed := if a * b < 0 then -k else k;
      Signs(a * b, k);
      Signs(Lcm(a, b), k);
      RegroupFactors(g, Lcm(a, b), signed);
      Regroup(g, Lcm(a, b), signed);
      assert g * n == g * (Lcm(a, b) * signed);
      EqualFactors(n, Lcm(a, b) * signed, g);
      DividesBy(Lcm(a, b), n, signed);
    }
  }

  lemma CombineQuotients(a: int, b: int, n: int, i: int, j: int, s: int, t: int, g: int)
    requires n == a * i && n == b * j && g == a * s + b * t
    ensures g * n == a * b * (s * j + t * i)
  {
    calc {
      g * n;
      a * s * n + b * t * n;
      a * s * (b * j) + b * t * (a * i);
      a * b * (s * j + t * i);
    }
  }
}
