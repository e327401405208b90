/** The steps of the rational operators on an integer type: every intermediate result is held to the
    type's range, and each operator is shown to overflow exactly when a stated condition holds. The type
    is two's complement of any size or of unlimited precision, on which nothing overflows. */
module MachineRange {
  import opened Integers
  import opened RationalNumbers
  import opened Reduction
  import opened Comparison

  /** The outcome of a computation whose steps must all fit the type. */
  datatype Machine<+T> = Exactly(value: T) | Overflow {
    predicate IsFailure() {
      Overflow?
    }

    function PropagateFailure<U>(): Machine<U>
      requires Overflow?
    {
      Machine.Overflow
    }

    function Extract(): T
      requires Exactly?
    {
      value
    }
  }

  function Held(v: int, range: IntegerType): Machine<int> {
    if Fits(v, range) then Exactly(v) else Overflow
  }

  predicate FractionFits(x: Fraction, range: IntegerType) {
    Fits(x.n, range) && Fits(x.d, range)
  }

  // ----- Multiplication

  function MachineTimes(x: Fraction, y: Fraction, range: IntegerType): Machine<Fraction>
    requires Normal(x) && Normal(y)
  {
    GcdPositive(x.n, y.d);
    GcdPositive(y.n, x.d);
    var gcd1 :- Held(Gcd(x.n, y.d), range);
    var gcd2 :- Held(Gcd(y.n, x.d), range);
    var a :- Held(TruncDiv(x.n, gcd1), range);
    var c :- Held(TruncDiv(y.n, gcd2), range);
    var n :- Held(a * c, range);
    var b :- Held(TruncDiv(x.d, gcd2), range);
    var d :- Held(TruncDiv(y.d, gcd1), range);
    var e :- Held(b * d, range);
    Exactly(Fraction(n, e))
  }

  /** Dividing by a positive number never leaves the range. */
  lemma QuotientFits(a: int, g: int, range: IntegerType)
    requires g > 0 && Fits(a, range)
    ensures Fits(TruncDiv(a, g), range)
  {
    var q, r := NatDivMod(Abs(a), g);
    if q > 0 {
      AtLeastFactors(g, q);
    }
  }

  lemma GcdFits(a: int, b: int, range: IntegerType)
    requires Fits(a, range) && 0 < b && Fits(b, range)
    ensures 0 < Gcd(a, b) && Fits(Gcd(a, b), range)
  {
    GcdBound(a, b);
    GcdPositive(a, b);
  }

  /** Multiplication overflows only when the exact product in lowest terms is not representable. */
  lemma TimesOverflowsOnlyIfItMust(x: Fraction, y: Fraction, range: IntegerType)
    requires Normal(x) && Normal(y) && FractionFits(x, range) && FractionFits(y, range)
    ensures MachineTimes(x, y, range) ==
            if FractionFits(Times(x, y), range) then Exactly(Times(x, y)) else Overflow
  {
    var gcd1, gcd2 := Gcd(x.n, y.d), Gcd(y.n, x.d);
    GcdFits(x.n, y.d, range);
    GcdFits(y.n, x.d, range);
    QuotientFits(x.n, gcd1, range);
    QuotientFits(y.n, gcd2, range);
    QuotientFits(x.d, gcd2, range);
    QuotientFits(y.d, gcd1, range);
    ProductNeedsNoGcd(x, y, gcd1, gcd2);
  }

  /** The steps of a multiplication that does not overflow. */
  lemma TimesSteps(x: Fraction, y: Fraction, range: IntegerType) returns (g1: int, g2: int)
    requires Normal(x) && Normal(y) && FractionFits(x, range) && FractionFits(y, range)
    requires FractionFits(Times(x, y), range)
    ensures g1 == Gcd(x.n, y.d) > 0 && g2 == Gcd(y.n, x.d) > 0 && Fits(g1, range) && Fits(g2, range)
    ensures var a, c, b, d := TruncDiv(x.n, g1), TruncDiv(y.n, g2), TruncDiv(x.d, g2), TruncDiv(y.d, g1);
            && Fits(a, range) && Fits(c, range) && Fits(b, range) && Fits(d, range)
            && Times(x, y) == Fraction(a * c, b * d)
  {
    g1, g2 := Gcd(x.n, y.d), Gcd(y.n, x.d);
    GcdFits(x.n, y.d, range);
    GcdFits(y.n, x.d, range);
    TimesOverflowsOnlyIfItMust(x, y, range);
  }

  // ----- Division

  function MachineOver(x: Fraction, y: Fraction, range: IntegerType): Machine<Fraction>
    requires Normal(x) && Normal(y) && y.n != 0
  {
    if x.n == 0 then Exactly(x)
    else
      GcdPositive(x.n, y.n);
      GcdPositive(y.d, x.d);
      var gcd1 :- Held(Gcd(x.n, y.n), range);
      var gcd2 :- Held(Gcd(y.d, x.d), range);
      var a :- Held(TruncDiv(x.n, gcd1), range);
      var d :- Held(TruncDiv(y.d, gcd2), range);
      var n :- Held(a * d, range);
      var b :- Held(TruncDiv(x.d, gcd2), range);
      var c :- Held(TruncDiv(y.n, gcd1), range);
      var e :- Held(b * c, range);
      SignUp(n, e, range)
  }

  /** The final sign change of the source. */
  function SignUp(n: int, e: int, range: IntegerType): Machine<Fraction> {
    if e < 0 then
      var n' :- Held(-n, range);
      var e' :- Held(-e, range);
      Exactly(Fraction(n', e'))
    else
      Exactly(Fraction(n, e))
  }

  /** The two cases in which a representable quotient is missed: both numerators are the lowest value,
      whose gcd is not representable; or the divisor is negative and the quotient's numerator is the
      lowest value, whose negative is formed first. */
  ghost predicate MissesQuotient(x: Fraction, y: Fraction, range: IntegerType)
    requires Normal(x) && Normal(y) && y.n != 0
  {
    || (IsLowest(x.n, range) && IsLowest(y.n, range))
    || (y.n < 0 && IsLowest(Over(x, y).n, range))
  }

  /** What division asks of its operands: a representable quotient and neither of those cases. */
  ghost predicate OverFits(x: Fraction, y: Fraction, range: IntegerType)
    requires Normal(x) && Normal(y) && y.n != 0
  {
    FractionFits(Over(x, y), range) && !MissesQuotient(x, y, range)
  }

  lemma OverFitsSteps(x: Fraction, y: Fraction, range: IntegerType)
    requires Normal(x) && Normal(y) && y.n != 0 && x.n != 0 && FractionFits(x, range) && FractionFits(y, range)
    requires !(IsLowest(x.n, range) && IsLowest(y.n, range))
    ensures var gcd1, gcd2 := Gcd(x.n, y.n), Gcd(y.d, x.d);
            && 0 < gcd1 && 0 < gcd2 && Fits(gcd1, range) && Fits(gcd2, range)
            && Fits(TruncDiv(x.n, gcd1), range) && Fits(TruncDiv(y.d, gcd2), range)
            && Fits(TruncDiv(x.d, gcd2), range) && Fits(TruncDiv(y.n, gcd1), range)
  {
    var gcd1, gcd2 := Gcd(x.n, y.n), Gcd(y.d, x.d);
    GcdBound(x.n, y.n);
    GcdPositive(x.n, y.n);
    GcdFits(y.d, x.d, range);
    QuotientFits(x.n, gcd1, range);
    QuotientFits(y.d, gcd2, range);
    QuotientFits(x.d, gcd2, range);
    QuotientFits(y.n, gcd1, range);
  }

  lemma LowestPairOverflows(x: Fraction, y: Fraction, range: IntegerType)
    requires Normal(x) && Normal(y) && IsLowest(x.n, range) && IsLowest(y.n, range)
    ensures MachineOver(x, y, range) == Overflow
  {
    EuclidOfEqual(range.max + 1);
  }

  /** Division overflows exactly when the exact quotient in lowest terms is not representable or one
      of the two missed cases holds. */
  lemma OverOverflowsExactly(x: Fraction, y: Fraction, range: IntegerType)
    requires Normal(x) && Normal(y) && y.n != 0 && FractionFits(x, range) && FractionFits(y, range)
    ensures MachineOver(x, y, range) == if OverFits(x, y, range) then Exactly(Over(x, y)) else Overflow
  {
    if x.n == 0 {
      ZeroIsOverOne(x);
      NonZeroProduct(x.d, y.n);
      CanonIsTheNormalForm(x, x.n * y.d, x.d * y.n);
    } else if IsLowest(x.n, range) && IsLowest(y.n, range) {
      LowestPairOverflows(x, y, range);
    } else {
      var gcd1, gcd2 := Gcd(x.n, y.n), Gcd(y.d, x.d);
      OverFitsSteps(x, y, range);
      QuotientNeedsNoGcd(x, y, gcd1, gcd2);
      DenominatorSign(x, y, gcd1, gcd2);
    }
  }

  /** The steps of a division of a non-zero number that does not overflow. */
  lemma OverSteps(x: Fraction, y: Fraction, range: IntegerType) returns (g1: int, g2: int)
    requires Normal(x) && Normal(y) && x.n != 0 && y.n != 0 && FractionFits(x, range) && FractionFits(y, range)
    requires OverFits(x, y, range)
    ensures g1 == Gcd(x.n, y.n) > 0 && g2 == Gcd(y.d, x.d) > 0 && Fits(g1, range) && Fits(g2, range)
    ensures var a, d, b, c := TruncDiv(x.n, g1), TruncDiv(y.d, g2), TruncDiv(x.d, g2), TruncDiv(y.n, g1);
            && Fits(a, range) && Fits(d, range) && Fits(b, range) && Fits(c, range)
            && Fits(a * d, range) && Fits(b * c, range)
            && (b * c < 0 ==> Fits(-(a * d), range) && Fits(-(b * c), range))
            && Over(x, y) == if b * c < 0 then Fraction(-(a * d), -(b * c)) else Fraction(a * d, b * c)
  {
    g1, g2 := Gcd(x.n, y.n), Gcd(y.d, x.d);
    OverFitsSteps(x, y, range);
    OverOverflowsExactly(x, y, range);
  }

  /** The denominator before the sign change has the divisor's sign. */
  lemma DenominatorSign(x: Fraction, y: Fraction, g1: int, g2: int)
    requires Normal(x) && Normal(y) && y.n != 0 && g1 == Gcd(x.n, y.n) > 0 && g2 == Gcd(y.d, x.d) > 0
    ensures TruncDiv(x.d, g2) * TruncDiv(y.n, g1) < 0 <==> y.n < 0
  {
    var h2, d', b := Split(y.d, x.d);
    var h1, a', c := Split(x.n, y.n);
    SignOfFactor(y.n, g1, c);
    if c > 0 {
      AtLeastFactors(b, c);
    } else {
      assert c != 0;
      AtLeastFactors(b, -c);
      Signs(b, c);
    }
  }

  // ----- Normalisation

  datatype Normalized = Done(x: Fraction) | Thrown | Overflown

  function MachineNormalize(n: int, d: int, range: IntegerType): Normalized
    requires d != 0
  {
    if n == 0 then Done(Fraction(0, 1))
    else
      GcdPositive(n, d);
      var g := Gcd(n, d);
      if !Fits(g, range) then Overflown
      else
        var i, j := TruncDiv(n, g), TruncDiv(d, g);
        if !Fits(i, range) || !Fits(j, range) then Overflown
        else if j + range.max < 0 then Thrown
        else
          match SignUp(i, j, range)
          case Exactly(x) => Done(x)
          case Overflow => Overflown
  }

  /** Normalisation throws for a negative denominator that even when reduced is below the negative of the
      maximum. */
  ghost predicate NormalizeThrows(n: int, d: int, range: IntegerType)
    requires d != 0
  {
    n != 0 && d < 0 && Canon(n, d).d > range.max
  }

  /** What normalisation asks of its operands otherwise: that they are not both the lowest value, and that
      the lowest-terms form is representable. */
  ghost predicate NormalizeFits(n: int, d: int, range: IntegerType)
    requires d != 0
  {
    && !(IsLowest(n, range) && IsLowest(d, range))
    && (NormalizeThrows(n, d, range) || FractionFits(Canon(n, d), range))
  }

  /** It succeeds, throws or overflows exactly under these conditions. */
  lemma NormalizeSucceedsExactly(n: int, d: int, range: IntegerType)
    requires d != 0 && Fits(n, range) && Fits(d, range)
    ensures MachineNormalize(n, d, range) ==
            if !NormalizeFits(n, d, range) then Overflown
            else if NormalizeThrows(n, d, range) then Thrown
            else Done(Canon(n, d))
    ensures range.TwosComplement? && NormalizeThrows(n, d, range) ==> !FractionFits(Canon(n, d), range)
  {
    var x := Canon(n, d);
    GcdPositive(n, d);
    if n == 0 {
      ZeroIsOverOne(x);
    } else if IsLowest(n, range) && IsLowest(d, range) {
      EuclidOfEqual(range.max + 1);
    } else {
      GcdBound(n, d);
      NormalizedParts(n, d);
      QuotientFits(n, Gcd(n, d), range);
      QuotientFits(d, Gcd(n, d), range);
    }
  }

  /** With a positive denominator it always succeeds. */
  lemma PositiveDenominatorFits(n: int, d: int, range: IntegerType)
    requires d > 0 && Fits(n, range) && Fits(d, range)
    ensures NormalizeFits(n, d, range) && !NormalizeThrows(n, d, range)
  {
    GcdPositive(n, d);
    NormalizedParts(n, d);
    QuotientFits(n, Gcd(n, d), range);
    QuotientFits(d, Gcd(n, d), range);
  }

  /** On a two's-complement type that is: the denominator is the lowest value and nothing cancels. */
  lemma ThrowsForLowestDenominator(n: int, d: int, range: IntegerType)
    requires d != 0 && range.TwosComplement? && Fits(n, range) && Fits(d, range)
    ensures NormalizeThrows(n, d, range) <==> n != 0 && d == -1 - range.max && Coprime(n, d)
  {
    GcdPositive(n, d);
    NormalizedParts(n, d);
    if n != 0 && d < 0 {
      var g, i, j := Split(n, d);
      var k := -j;
      Signs(g, j);
      if g > 1 && k > 0 {
        AtLeastTwice(g, k);
      }
    }
  }

  /** A type of unlimited precision may report zero as its maximum: then every negative denominator throws. */
  lemma UnlimitedMayThrowAlways(n: int, d: int, range: IntegerType)
    requires d != 0 && range == Unlimited(0)
    ensures NormalizeThrows(n, d, range) <==> n != 0 && d < 0
  {
    assert Normal(Canon(n, d));
  }

  lemma AtLeastTwice(g: nat, k: nat)
    requires g > 1 && k > 0
    ensures g * k >= 2 * k
  {
    assert g * k == 2 * k + (g - 2) * k;
    NonNegativeProduct(g - 2, k);
  }

  // ----- Addition

  function MachinePlus(x: Fraction, y: Fraction, range: IntegerType): Machine<Fraction>
    requires Normal(x) && Normal(y)
  {
    GcdPositive(x.d, y.d);
    var g :- Held(Gcd(x.d, y.d), range);
    var b1 :- Held(TruncDiv(x.d, g), range);
    var d1 :- Held(TruncDiv(y.d, g), range);
    var p :- Held(x.n * d1, range);
    var q :- Held(y.n * b1, range);
    var t :- Held(p + q, range);
    CancelSum(t, g, b1, y.d, range)
  }

  /** The same steps but for the last sign: the second product is subtracted, not its negative added. */
  function MachineMinus(x: Fraction, y: Fraction, range: IntegerType): Machine<Fraction>
    requires Normal(x) && Normal(y)
  {
    GcdPositive(x.d, y.d);
    var g :- Held(Gcd(x.d, y.d), range);
    var b1 :- Held(TruncDiv(x.d, g), range);
    var d1 :- Held(TruncDiv(y.d, g), range);
    var p :- Held(x.n * d1, range);
    var q :- Held(y.n * b1, range);
    var t :- Held(p - q, range);
    CancelSum(t, g, b1, y.d, range)
  }

  /** The second half of both: what is left in common is divided out. */
  function CancelSum(t: int, g: int, b1: int, d: int, range: IntegerType): Machine<Fraction>
    requires g > 0
  {
    GcdPositive(t, g);
    var h :- Held(Gcd(t, g), range);
    var n :- Held(TruncDiv(t, h), range);
    var k :- Held(TruncDiv(d, h), range);
    var e :- Held(b1 * k, range);
    Exactly(Fraction(n, e))
  }

  /** Only the final denominator can overflow. */
  lemma CancelSumFits(t: int, g: int, b1: int, d: int, range: IntegerType)
    requires 0 < g && Fits(g, range) && Fits(t, range) && Fits(d, range)
    ensures Gcd(t, g) > 0
    ensures var e := b1 * TruncDiv(d, Gcd(t, g));
            CancelSum(t, g, b1, d, range) ==
            if Fits(e, range) then Exactly(Fraction(TruncDiv(t, Gcd(t, g)), e)) else Overflow
  {
    GcdFits(t, g, range);
    QuotientFits(t, Gcd(t, g), range);
    QuotientFits(d, Gcd(t, g), range);
  }

  /** x's numerator over the least common denominator of x and y. */
  function ScaledNumerator(x: Fraction, y: Fraction): int
    requires Normal(x) && Normal(y)
  {
    x.n * TruncDiv(Lcm(x.d, y.d), x.d)
  }

  lemma ScaledByCofactor(x: Fraction, y: Fraction)
    requires Normal(x) && Normal(y)
    ensures Gcd(x.d, y.d) > 0
    ensures ScaledNumerator(x, y) == x.n * TruncDiv(y.d, Gcd(x.d, y.d))
    ensures ScaledNumerator(y, x) == y.n * TruncDiv(x.d, Gcd(x.d, y.d))
  {
    var g, b, d := Split(x.d, y.d);
    GcdSymmetric(x.d, y.d);
    assert Lcm(x.d, y.d) == b * y.d;
    assert Lcm(y.d, x.d) == d * x.d;
    assert b * y.d == x.d * d by {
      assert b * (g * d) == (g * b) * d;
    }
    assert d * x.d == y.d * b;
    ExactDivision(Lcm(x.d, y.d), x.d, d);
    ExactDivision(Lcm(y.d, x.d), y.d, b);
  }

  /** What addition asks of its operands: that the numerators over the least common denominator, their sum
      and the denominator of the exact sum are representable. */
  ghost predicate PlusFits(x: Fraction, y: Fraction, range: IntegerType)
    requires Normal(x) && Normal(y)
  {
    var a, c := ScaledNumerator(x, y), ScaledNumerator(y, x);
    Fits(a, range) && Fits(c, range) && Fits(a + c, range) && Fits(Plus(x, y).d, range)
  }

  /** Subtraction asks it of the difference of the two numerators. */
  ghost predicate MinusFits(x: Fraction, y: Fraction, range: IntegerType)
    requires Normal(x) && Normal(y)
  {
    var a, c := ScaledNumerator(x, y), ScaledNumerator(y, x);
    Fits(a, range) && Fits(c, range) && Fits(a - c, range) && Fits(Minus(x, y).d, range)
  }

  /** Addition overflows exactly when one of these is not representable. */
  lemma PlusOverflowsExactly(x: Fraction, y: Fraction, range: IntegerType)
    requires Normal(x) && Normal(y) && FractionFits(x, range) && FractionFits(y, range)
    ensures MachinePlus(x, y, range) == if PlusFits(x, y, range) then Exactly(Plus(x, y)) else Overflow
  {
    var g := Gcd(x.d, y.d);
    ScaledByCofactor(x, y);
    GcdFits(x.d, y.d, range);
    QuotientFits(x.d, g, range);
    QuotientFits(y.d, g, range);
    SumNeedsOneGcd(x, y);
    var t := ScaledNumerator(x, y) + ScaledNumerator(y, x);
    if Fits(t, range) {
      CancelSumFits(t, g, TruncDiv(x.d, g), y.d, range);
    }
  }

  /** Subtraction likewise, with the difference of the two numerators: the second one may be the lowest
      value, which has no negative to add. */
  lemma MinusOverflowsExactly(x: Fraction, y: Fraction, range: IntegerType)
    requires Normal(x) && Normal(y) && FractionFits(x, range) && FractionFits(y, range)
    ensures MachineMinus(x, y, range) == if MinusFits(x, y, range) then Exactly(Minus(x, y)) else Overflow
  {
    var g := Gcd(x.d, y.d);
    ScaledByCofactor(x, y);
    GcdFits(x.d, y.d, range);
    QuotientFits(x.d, g, range);
    QuotientFits(y.d, g, range);
    MinusIsPlusNegated(x, y);
    SumNeedsOneGcd(x, Fraction(-y.n, y.d));
    Signs(y.n, TruncDiv(x.d, g));
    var t := ScaledNumerator(x, y) - ScaledNumerator(y, x);
    if Fits(t, range) {
      CancelSumFits(t, g, TruncDiv(x.d, g), y.d, range);
    }
  }

  /** In plain integers: with the two denominators brought to their least common multiple by e and f, what
      must be representable are the numerators over it, their sum or difference, and the denominator of the
      exact result. */
  lemma SumConditions(x: Fraction, y: Fraction, e: int, f: int, range: IntegerType)
    requires Normal(x) && Normal(y) && Lcm(x.d, y.d) == x.d * e == y.d * f
    ensures PlusFits(x, y, range) <==>
            Fits(x.n * e, range) && Fits(y.n * f, range) && Fits(x.n * e + y.n * f, range)
            && Fits(Plus(x, y).d, range)
    ensures MinusFits(x, y, range) <==>
            Fits(x.n * e, range) && Fits(y.n * f, range) && Fits(x.n * e - y.n * f, range)
            && Fits(Minus(x, y).d, range)
  {
    LcmSymmetric(x.d, y.d);
    ExactDivision(Lcm(x.d, y.d), x.d, e);
    ExactDivision(Lcm(y.d, x.d), y.d, f);
  }

  /** So equal denominators need nothing but the sum of the numerators. */
  lemma SameDenominatorSum(x: Fraction, y: Fraction, range: IntegerType)
    requires Normal(x) && Normal(y) && x.d == y.d && FractionFits(x, range) && FractionFits(y, range)
    ensures PlusFits(x, y, range) <==> Fits(x.n + y.n, range)
  {
    var g, b, d := Split(x.d, y.d);
    EuclidOfEqual(x.d);
    ExactDivision(x.d, x.d, 1);
    assert Lcm(x.d, y.d) == x.d * 1 == y.d * 1;
    SumConditions(x, y, 1, 1, range);
    if Fits(x.n + y.n, range) {
      SumNeedsOneGcd(x, y);
      ScaledByCofactor(x, y);
      var t := x.n + y.n;
      assert t == x.n * 1 + y.n * 1;
      GcdPositive(t, x.d);
      QuotientFits(y.d, Gcd(t, x.d), range);
    }
  }

  /** The steps of an addition that does not overflow: both have the same but for t. */
  lemma PlusSteps(x: Fraction, y: Fraction, range: IntegerType) returns (g: int, b1: int, d1: int, t: int, h: int)
    requires Normal(x) && Normal(y) && FractionFits(x, range) && FractionFits(y, range)
    requires PlusFits(x, y, range)
    ensures g == Gcd(x.d, y.d) > 0 && b1 == TruncDiv(x.d, g) && d1 == TruncDiv(y.d, g)
    ensures Fits(g, range) && Fits(b1, range) && Fits(d1, range)
    ensures Fits(x.n * d1, range) && Fits(y.n * b1, range) && t == x.n * d1 + y.n * b1 && Fits(t, range)
    ensures Cancelled(Plus(x, y), t, g, b1, y.d, h, range)
  {
    ScaledByCofactor(x, y);
    GcdFits(x.d, y.d, range);
    g := Gcd(x.d, y.d);
    b1, d1 := TruncDiv(x.d, g), TruncDiv(y.d, g);
    PlusOverflowsExactly(x, y, range);
    t := x.n * d1 + y.n * b1;
    CancelSumFits(t, g, b1, y.d, range);
    h := Gcd(t, g);
  }

  lemma MinusSteps(x: Fraction, y: Fraction, range: IntegerType) returns (g: int, b1: int, d1: int, t: int, h: int)
    requires Normal(x) && Normal(y) && FractionFits(x, range) && FractionFits(y, range)
    requires MinusFits(x, y, range)
    ensures g == Gcd(x.d, y.d) > 0 && b1 == TruncDiv(x.d, g) && d1 == TruncDiv(y.d, g)
    ensures Fits(g, range) && Fits(b1, range) && Fits(d1, range)
    ensures Fits(x.n * d1, range) && Fits(y.n * b1, range) && t == x.n * d1 - y.n * b1 && Fits(t, range)
    ensures Cancelled(Minus(x, y), t, g, b1, y.d, h, range)
  {
    ScaledByCofactor(x, y);
    GcdFits(x.d, y.d, range);
    g := Gcd(x.d, y.d);
    b1, d1 := TruncDiv(x.d, g), TruncDiv(y.d, g);
    MinusOverflowsExactly(x, y, range);
    t := x.n * d1 - y.n * b1;
    CancelSumFits(t, g, b1, y.d, range);
    h := Gcd(t, g);
  }

  /** z is what dividing h out of t and d leaves, and nothing on the way leaves the range. */
  predicate Cancelled(z: Fraction, t: int, g: int, b1: int, d: int, h: int, range: IntegerType) {
    && h == Gcd(t, g) && h > 0 && Fits(h, range)
    && Fits(TruncDiv(t, h), range) && Fits(TruncDiv(d, h), range) && Fits(b1 * TruncDiv(d, h), range)
    && z == Fraction(TruncDiv(t, h), b1 * TruncDiv(d, h))
  }

  /** So -1 minus the lowest value is computed, although adding the negative would not be possible. */
  lemma MinusTakesLowest(range: IntegerType, lowest: int)
    requires IsLowest(lowest, range)
    ensures var x, y := Fraction(-1, 1), Fraction(lowest, 1);
            Normal(x) && Normal(y) && MachineMinus(x, y, range) == Exactly(Fraction(range.max, 1))
            && !Fits(-y.n, range)
  {
    var x, y := Fraction(-1, 1), Fraction(lowest, 1);
    GcdWithOne(-1);
    GcdWithOne(lowest);
    GcdWithOne(range.max);
    GcdWithOne(1);
    MinusIsPlusNegated(x, y);
    PlusIs(x, Fraction(-y.n, 1), range.max, 1);
    ScaledByCofactor(x, y);
    DividedByOne(1);
    MinusOverflowsExactly(x, y, range);
  }

  /** So a representable sum can be missed: max/2 + max/2 is the integer max, but 2 max is formed on the
      way. */
  lemma PlusMissesRepresentableSum(range: IntegerType)
    requires range.TwosComplement? && range.max % 2 == 1 && range.max > 1
    ensures var x := Fraction(range.max, 2);
            Normal(x) && FractionFits(x, range) && FractionFits(Plus(x, x), range)
            && MachinePlus(x, x, range) == Overflow
  {
    var max: int := range.max;
    var x := Fraction(max, 2);
    CoprimeBy(max, 2, 1, -(max / 2));
    GcdWithOne(max);
    PlusIs(x, x, max, 1);
    EuclidOfEqual(2);
    assert Gcd(2, 2) == 2;
    assert TruncDiv(2, 2) == 1;
    ScaledByCofactor(x, x);
    PlusOverflowsExactly(x, x, range);
  }

  // ----- The forms with an integer

  function MachinePlusInteger(x: Fraction, i: int, range: IntegerType): Machine<Fraction> {
    var t :- Held(i * x.d, range);
    var n :- Held(x.n + t, range);
    Exactly(Fraction(n, x.d))
  }

  function MachineMinusInteger(x: Fraction, i: int, range: IntegerType): Machine<Fraction> {
    var t :- Held(i * x.d, range);
    var n :- Held(x.n - t, range);
    Exactly(Fraction(n, x.d))
  }

  /** What adding or subtracting an integer asks: that the integer over the denominator and the exact
      result z are representable. */
  predicate IntegerFits(x: Fraction, i: int, z: Fraction, range: IntegerType) {
    Fits(i * x.d, range) && FractionFits(z, range)
  }

  lemma PlusIntegerOverflowsExactly(x: Fraction, i: int, range: IntegerType)
    requires Normal(x) && FractionFits(x, range)
    ensures var z := Plus(x, Fraction(i, 1));
            MachinePlusInteger(x, i, range) == if IntegerFits(x, i, z, range) then Exactly(z) else Overflow
  {
    CoprimeAfterShift(x.n, x.d, i);
    PlusIs(x, Fraction(i, 1), x.n + i * x.d, x.d);
  }

  lemma MinusIntegerOverflowsExactly(x: Fraction, i: int, range: IntegerType)
    requires Normal(x) && FractionFits(x, range)
    ensures var z := Minus(x, Fraction(i, 1));
            MachineMinusInteger(x, i, range) == if IntegerFits(x, i, z, range) then Exactly(z) else Overflow
  {
    GcdWithOne(i);
    MinusIsPlusNegated(x, Fraction(i, 1));
    CoprimeAfterShift(x.n, x.d, -i);
    Signs(i, x.d);
    PlusIs(x, Fraction(-i, 1), x.n - i * x.d, x.d);
  }

  /** So a representable sum can be missed here too: -1/2 plus half of what is just out of range. */
  lemma PlusIntegerMissesRepresentableSum(range: IntegerType)
    requires range.TwosComplement? && range.max % 2 == 1 && range.max > 1
    ensures var x, i := Fraction(-1, 2), (range.max + 1) / 2;
            Normal(x) && FractionFits(x, range) && Fits(i, range) && FractionFits(Plus(x, Fraction(i, 1)), range)
            && MachinePlusInteger(x, i, range) == Overflow
  {
    var max: int := range.max;
    CoprimeBy(-1, 2, 1, 1);
    CoprimeBy(max, 2, 1, -(max / 2));
    PlusIs(Fraction(-1, 2), Fraction((max + 1) / 2, 1), max, 2);
  }

  /** `++` and `--`: the product with one is not formed. */
  function MachineIncrement(x: Fraction, range: IntegerType): Machine<Fraction> {
    var n :- Held(x.n + x.d, range);
    Exactly(Fraction(n, x.d))
  }

  function MachineDecrement(x: Fraction, range: IntegerType): Machine<Fraction> {
    var n :- Held(x.n - x.d, range);
    Exactly(Fraction(n, x.d))
  }

  /** Counting overflows only when the next number is not representable. */
  lemma CountingOverflowsOnlyIfItMust(x: Fraction, range: IntegerType)
    requires Normal(x) && FractionFits(x, range)
    ensures var up, down := Plus(x, Fraction(1, 1)), Minus(x, Fraction(1, 1));
            && MachineIncrement(x, range) == (if FractionFits(up, range) then Exactly(up) else Overflow)
            && MachineDecrement(x, range) == (if FractionFits(down, range) then Exactly(down) else Overflow)
  {
    PlusIntegerOverflowsExactly(x, 1, range);
    MinusIntegerOverflowsExactly(x, 1, range);
  }

  function MachineTimesInteger(x: Fraction, i: int, range: IntegerType): Machine<Fraction>
    requires Normal(x)
  {
    GcdPositive(i, x.d);
    var gcd :- Held(Gcd(i, x.d), range);
    var c :- Held(TruncDiv(i, gcd), range);
    var n :- Held(x.n * c, range);
    var d :- Held(TruncDiv(x.d, gcd), range);
    Exactly(Fraction(n, d))
  }

  /** The form with an integer takes the steps of the form with a rational, less the trivial ones. */
  lemma TimesIntegerOverflowsOnlyIfItMust(x: Fraction, i: int, range: IntegerType)
    requires Normal(x) && FractionFits(x, range) && Fits(i, range)
    ensures var z := Times(x, Fraction(i, 1));
            MachineTimesInteger(x, i, range) == if FractionFits(z, range) then Exactly(z) else Overflow
  {
    var y := Fraction(i, 1);
    GcdWithOne(i);
    GcdWithOne(x.n);
    DividedByOne(x.n);
    DividedByOne(1);
    TimesOverflowsOnlyIfItMust(x, y, range);
    GcdPositive(i, x.d);
    assert TruncDiv(x.d, Gcd(i, x.d)) * 1 == TruncDiv(x.d, Gcd(i, x.d));
  }

  function MachineOverInteger(x: Fraction, i: int, range: IntegerType): Machine<Fraction>
    requires Normal(x) && i != 0
  {
    if x.n == 0 then Exactly(x)
    else
      GcdPositive(x.n, i);
      var gcd :- Held(Gcd(x.n, i), range);
      var n :- Held(TruncDiv(x.n, gcd), range);
      var c :- Held(TruncDiv(i, gcd), range);
      var e :- Held(x.d * c, range);
      SignUp(n, e, range)
  }

  lemma OverIntegerOverflowsExactly(x: Fraction, i: int, range: IntegerType)
    requires Normal(x) && i != 0 && FractionFits(x, range) && Fits(i, range)
    ensures Normal(Fraction(i, 1))
    ensures var y := Fraction(i, 1);
            MachineOverInteger(x, i, range) == if OverFits(x, y, range) then Exactly(Over(x, y)) else Overflow
  {
    var y := Fraction(i, 1);
    GcdWithOne(i);
    GcdWithOne(x.d);
    DividedByOne(x.d);
    DividedByOne(1);
    OverOverflowsExactly(x, y, range);
    if x.n != 0 {
      GcdPositive(x.n, i);
      assert TruncDiv(x.n, Gcd(x.n, i)) * 1 == TruncDiv(x.n, Gcd(x.n, i));
    }
  }

  lemma TimesIntegerSteps(x: Fraction, i: int, range: IntegerType) returns (g: int)
    requires Normal(x) && FractionFits(x, range) && Fits(i, range) && FractionFits(Times(x, Fraction(i, 1)), range)
    ensures g == Gcd(i, x.d) > 0 && Fits(g, range) && Fits(TruncDiv(i, g), range)
    ensures Times(x, Fraction(i, 1)) == Fraction(x.n * TruncDiv(i, g), TruncDiv(x.d, g))
  {
    GcdFits(i, x.d, range);
    g := Gcd(i, x.d);
    TimesIntegerOverflowsOnlyIfItMust(x, i, range);
  }

  lemma OverIntegerSteps(x: Fraction, i: int, range: IntegerType) returns (g: int)
    requires Normal(x) && x.n != 0 && i != 0 && FractionFits(x, range) && Fits(i, range)
    requires Normal(Fraction(i, 1)) && OverFits(x, Fraction(i, 1), range)
    ensures g == Gcd(x.n, i) > 0 && Fits(g, range)
    ensures var n, c := TruncDiv(x.n, g), TruncDiv(i, g);
            && Fits(n, range) && Fits(c, range) && Fits(x.d * c, range)
            && (x.d * c < 0 ==> Fits(-n, range) && Fits(-(x.d * c), range))
            && Over(x, Fraction(i, 1)) == if x.d * c < 0 then Fraction(-n, -(x.d * c)) else Fraction(n, x.d * c)
  {
    GcdPositive(x.n, i);
    g := Gcd(x.n, i);
    OverIntegerOverflowsExactly(x, i, range);
  }

  // ----- Comparison

  function MachineMixed(n: int, d: int, range: IntegerType): (m: Machine<(int, int)>)
    requires d > 0
    ensures m.Exactly? ==> IsMixed(n, d, m.value.0, m.value.1)
  {
    var q :- Held(TruncDiv(n, d), range);
    var r :- Held(TruncMod(n, d), range);
    TruncDivMod(n, d);
    LiftRemainder(q, r, d, range)
  }

  /** The loop that brings a negative remainder up. */
  function LiftRemainder(q: int, r: int, d: int, range: IntegerType): (m: Machine<(int, int)>)
    requires -d < r < d
    ensures m.Exactly? ==> IsMixed(q * d + r, d, m.value.0, m.value.1)
    decreases -r
  {
    if r < 0 then
      var r' :- Held(r + d, range);
      var q' :- Held(q - 1, range);
      LiftRemainder(q', r', d, range)
    else Exactly((q, r))
  }

  /** The comparison loop on quotients, remainders and divisors; the dividends are only copied. The method
      `LessThan` is proved to follow it round by round. */
  function MachineExpand(q: int, r: int, d: int, q': int, r': int, d': int, reverse: bool,
                         range: IntegerType): Machine<bool>
    requires 0 <= r < d && 0 <= r' < d'
    decreases d
  {
    if q != q' then Exactly(if reverse then q > q' else q < q')
    else if r == 0 || r' == 0 then Exactly(if r == r' then false else (r != 0) != !reverse)
    else
      var nextQ :- Held(TruncDiv(d, r), range);
      var nextR :- Held(TruncMod(d, r), range);
      var nextQ' :- Held(TruncDiv(d', r'), range);
      var nextR' :- Held(TruncMod(d', r'), range);
      TruncDivMod(d, r);
      TruncDivMod(d', r');
      MachineExpand(nextQ, nextR, r, nextQ', nextR', r', !reverse, range)
  }

  function MachineLess(x: Fraction, y: Fraction, range: IntegerType): Machine<bool>
    requires x.d > 0 && y.d > 0
  {
    var t :- MachineMixed(x.n, x.d, range);
    var r :- MachineMixed(y.n, y.d, range);
    MachineExpand(t.0, t.1, x.d, r.0, r.1, y.d, false, range)
  }

  lemma MixedFits(n: int, d: int, range: IntegerType) returns (q: int, r: int)
    requires d > 0 && Fits(n, range) && Fits(d, range)
    ensures IsMixed(n, d, q, r) && MachineMixed(n, d, range) == Exactly((q, r))
  {
    q, r := TruncDiv(n, d), TruncMod(n, d);
    TruncatedInRange(n, d, range);
    if r < 0 {
      QuotientCanDrop(n, d, q, r, range);
      assert LiftRemainder(q - 1, r + d, d, range) == Exactly((q - 1, r + d));
      q, r := q - 1, r + d;
    }
  }

  lemma {:induction false} ExpandFits(n: int, d: int, q: int, r: int, n': int, d': int, q': int, r': int,
                                      reverse: bool, range: IntegerType)
    requires IsMixed(n, d, q, r) && IsMixed(n', d', q', r') && Fits(d, range) && Fits(d', range)
    ensures MachineExpand(q, r, d, q', r', d', reverse, range)
         == Exactly(if reverse then n' * d < n * d' else n * d' < n' * d)
    decreases d
  {
    if q != q' {
      QuotientsDecide(n, d, q, r, n', d', q', r');
    } else {
      EqualQuotientsReciprocate(n, d, r, n', d', r', q);
      if r == 0 || r' == 0 {
        RemaindersDecide(d, r, d', r');
      } else {
        NatDivision(d, r, range);
        NatDivision(d', r', range);
        ExpandFits(d, r, TruncDiv(d, r), TruncMod(d, r), d', r', TruncDiv(d', r'), TruncMod(d', r'), !reverse, range);
      }
    }
  }

  /** Comparison never overflows, the lowest numerator included, and decides the exact order. */
  lemma LessNeverOverflows(x: Fraction, y: Fraction, range: IntegerType)
    requires x.d > 0 && y.d > 0 && FractionFits(x, range) && FractionFits(y, range)
    ensures MachineLess(x, y, range) == Exactly(x.n * y.d < y.n * x.d)
    ensures x.n * y.d < y.n * x.d <==> Value(x) < Value(y)
  {
    var q, r := MixedFits(x.n, x.d, range);
    var q', r' := MixedFits(y.n, y.d, range);
    ExpandFits(x.n, x.d, q, r, y.n, y.d, q', r', false, range);
    OrderedValues(x, y);
  }
}
