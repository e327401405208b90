/** The `rational` object: numerator and denominator updated in place by the source's algorithms, on an
    integer type whose arithmetic is partial. Every operator computes in that type alone, so that a step
    which left the range would fail its own proof; what an operator asks of its operands is the exact
    condition under which none of its steps does. */
module RationalObjects {
  import opened Integers
  import opened MachineIntegers
  import opened RationalNumbers
  import opened Reduction
  import opened Comparison
  import opened RationalGcd
  import opened MachineRange

  datatype Error = ZeroDenominator | SingularDenominator

  datatype Outcome = Pass | Fail(error: Error)

  /** An integer as a fraction. */
  function Whole(i: Int): Fraction {
    Fraction(i as int, 1)
  }

  class Rational {
    var num: Int
    var den: Int

    function Get(): (x: Fraction)
      reads this
      ensures FractionFits(x, TheType)
    {
      Fraction(num as int, den as int)
    }

    /** The class invariant: lowest terms, positive denominator. */
    ghost predicate Valid()
      reads this
    {
      Normal(Get())
    }

    constructor ()
      ensures Valid() && Get() == Fraction(0, 1)
    {
      num, den := 0, 1;
      new;
      assert Coprime(0, 1) by {
        EuclidOfZero(1);
      }
    }

    constructor FromInteger(n: Int)
      ensures Valid() && Get() == Whole(n)
    {
      num, den := n, 1;
      new;
      GcdWithOne(n as int);
    }

    /** The unnormalised pair that the two-argument constructor starts from. */
    constructor Unnormalized(n: Int, d: Int)
      ensures num == n && den == d
    {
      num, den := n, d;
    }

    /** The two-argument constructor. An exception leaves no object behind. */
    static method Create(n: Int, d: Int) returns (outcome: Outcome, r: Rational)
      requires d != 0 ==> NormalizeFits(n as int, d as int, TheType)
      ensures fresh(r)
      ensures outcome == Fail(ZeroDenominator) <==> d == 0
      ensures outcome == Fail(SingularDenominator) <==> d != 0 && NormalizeThrows(n as int, d as int, TheType)
      ensures outcome == Pass <==> d != 0 && !NormalizeThrows(n as int, d as int, TheType)
      ensures outcome == Pass ==> r.Valid() && r.Get() == Canon(n as int, d as int)
    {
      r := new Rational.Unnormalized(n, d);
      outcome := r.Normalize();
    }

    method Normalize() returns (outcome: Outcome)
      requires den != 0 ==> NormalizeFits(num as int, den as int, TheType)
      modifies this
      ensures outcome == Fail(ZeroDenominator) <==> old(den) == 0
      ensures outcome == Fail(SingularDenominator) <==>
              old(den) != 0 && NormalizeThrows(old(num) as int, old(den) as int, TheType)
      ensures outcome == Pass <==> old(den) != 0 && !NormalizeThrows(old(num) as int, old(den) as int, TheType)
      ensures outcome == Pass ==> Valid() && Get() == Canon(old(num) as int, old(den) as int)
    {
      if den == 0 {
        return Fail(ZeroDenominator);
      }
      NormalizeSucceedsExactly(num as int, den as int, TheType);
      NormalizedParts(num as int, den as int);
      if num == 0 {
        den := 1;
        return Pass;
      }
      var g := GcdInt(num, den);
      num := Div(num, g);
      den := Div(den, g);
      if den < -Largest() {
        return Fail(SingularDenominator);
      }
      if den < 0 {
        num := -num;
        den := -den;
      }
      return Pass;
    }

    // ----- Arithmetic with a rational; the argument may be this object

    method AddAssign(r: Rational)
      requires Valid() && r.Valid() && PlusFits(Get(), r.Get(), TheType)
      modifies this
      ensures Valid() && Get() == Plus(old(Get()), old(r.Get()))
      ensures Value(Get()) == old(Value(Get())) + old(Value(r.Get()))
    {
      SumIsExact(Get(), r.Get());
      ghost var g', b1, d1, t, h := PlusSteps(Get(), r.Get(), TheType);
      var rNum, rDen := r.num, r.den;
      var g := GcdInt(den, rDen);
      den := Div(den, g);
      num := num * Div(rDen, g) + rNum * den;
      g := GcdInt(num, g);
      num := Div(num, g);
      den := den * Div(rDen, g);
    }

    method SubtractAssign(r: Rational)
      requires Valid() && r.Valid() && MinusFits(Get(), r.Get(), TheType)
      modifies this
      ensures Valid() && Get() == Minus(old(Get()), old(r.Get()))
      ensures Value(Get()) == old(Value(Get())) - old(Value(r.Get()))
    {
      DifferenceIsExact(Get(), r.Get());
      ghost var g', b1, d1, t, h := MinusSteps(Get(), r.Get(), TheType);
      var rNum, rDen := r.num, r.den;
      var g := GcdInt(den, rDen);
      den := Div(den, g);
      num := num * Div(rDen, g) - rNum * den;
      g := GcdInt(num, g);
      num := Div(num, g);
      den := den * Div(rDen, g);
    }

    method MultiplyAssign(r: Rational)
      requires Valid() && r.Valid() && FractionFits(Times(Get(), r.Get()), TheType)
      modifies this
      ensures Valid() && Get() == Times(old(Get()), old(r.Get()))
      ensures Value(Get()) == old(Value(Get())) * old(Value(r.Get()))
    {
      ProductIsExact(Get(), r.Get());
      CancelAcross(r);
    }

    /** The fields alone, without the value they stand for. */
    method CancelAcross(r: Rational)
      requires Valid() && r.Valid() && FractionFits(Times(Get(), r.Get()), TheType)
      modifies this
      ensures Valid() && Get() == Times(old(Get()), old(r.Get()))
    {
      ghost var g1, g2 := TimesSteps(Get(), r.Get(), TheType);
      var rNum, rDen := r.num, r.den;
      var gcd1 := GcdInt(num, rDen);
      var gcd2 := GcdInt(rNum, den);
      num := Div(num, gcd1) * Div(rNum, gcd2);
      den := Div(den, gcd2) * Div(rDen, gcd1);
    }

    method DivideAssign(r: Rational) returns (outcome: Outcome)
      requires Valid() && r.Valid() && (r.num != 0 ==> OverFits(Get(), r.Get(), TheType))
      modifies this
      ensures Valid() && (outcome == Pass <==> old(r.num) != 0)
      ensures old(r.num) == 0 ==> Get() == old(Get())
      ensures old(r.num) != 0 ==> Get() == Over(old(Get()), old(r.Get()))
      ensures old(r.num) != 0 ==>
                old(Value(r.Get())) != 0.0 && Value(Get()) == old(Value(Get())) / old(Value(r.Get()))
    {
      var rNum, rDen := r.num, r.den;
      if rNum == 0 {
        return Fail(ZeroDenominator);
      }
      QuotientIsExact(Get(), r.Get());
      if num == 0 {
        ZeroOver(Get(), r.Get());
        return Pass;
      }
      ghost var g1, g2 := OverSteps(Get(), r.Get(), TheType);
      var gcd1 := GcdInt(num, rNum);
      var gcd2 := GcdInt(rDen, den);
      num := Div(num, gcd1) * Div(rDen, gcd2);
      den := Div(den, gcd2) * Div(rNum, gcd1);
      if den < 0 {
        num := -num;
        den := -den;
      }
      return Pass;
    }

    // ----- Arithmetic with an integer

    method AddInteger(i: Int)
      requires Valid() && IntegerFits(Get(), i as int, Plus(Get(), Whole(i)), TheType)
      modifies this
      ensures Valid() && Get() == Plus(old(Get()), Whole(i))
      ensures Value(Get()) == old(Value(Get())) + i as int as real
    {
      SumIsExact(Get(), Whole(i));
      PlusIntegerOverflowsExactly(Get(), i as int, TheType);
      num := num + i * den;
    }

    method SubtractInteger(i: Int)
      requires Valid() && IntegerFits(Get(), i as int, Minus(Get(), Whole(i)), TheType)
      modifies this
      ensures Valid() && Get() == Minus(old(Get()), Whole(i))
      ensures Value(Get()) == old(Value(Get())) - i as int as real
    {
      DifferenceIsExact(Get(), Whole(i));
      MinusIntegerOverflowsExactly(Get(), i as int, TheType);
      num := num - i * den;
    }

    method MultiplyInteger(i: Int)
      requires Valid() && FractionFits(Times(Get(), Whole(i)), TheType)
      modifies this
      ensures Valid() && Get() == Times(old(Get()), Whole(i))
      ensures Value(Get()) == old(Value(Get())) * i as int as real
    {
      ProductIsExact(Get(), Whole(i));
      CancelAndMultiply(i);
    }

    method CancelAndMultiply(i: Int)
      requires Valid() && FractionFits(Times(Get(), Whole(i)), TheType)
      modifies this
      ensures Valid() && Get() == Times(old(Get()), Whole(i))
    {
      ghost var g := TimesIntegerSteps(Get(), i as int, TheType);
      var gcd := GcdInt(i, den);
      num := num * Div(i, gcd);
      den := Div(den, gcd);
    }

    method DivideInteger(i: Int) returns (outcome: Outcome)
      requires Valid() && (i != 0 ==> OverFits(Get(), Whole(i), TheType))
      modifies this
      ensures Valid() && (outcome == Pass <==> i != 0)
      ensures i == 0 ==> Get() == old(Get())
      ensures i != 0 ==> Get() == Over(old(Get()), Whole(i))
      ensures i != 0 ==> Value(Get()) == old(Value(Get())) / i as int as real
    {
      if i == 0 {
        return Fail(ZeroDenominator);
      }
      QuotientIsExact(Get(), Whole(i));
      if num == 0 {
        ZeroOver(Get(), Whole(i));
        return Pass;
      }
      GcdWithOne(i as int);
      ghost var g := OverIntegerSteps(Get(), i as int, TheType);
      var gcd := GcdInt(num, i);
      num := Div(num, gcd);
      den := den * Div(i, gcd);
      if den < 0 {
        num := -num;
        den := -den;
      }
      return Pass;
    }

    /** The same operator called with the object's own numerator, which the parameter then refers to:
        the second division reads it after it has changed. The outcome is right exactly for the
        numerators -1, 0 and 1; any other leaves a zero denominator. */
    method DivideByOwnNumerator() returns (outcome: Outcome)
      requires Valid() && !IsLowest(num as int, TheType)
      modifies this
      ensures outcome == Pass <==> old(num) != 0
      ensures old(num) == 0 ==> Get() == old(Get())
      ensures old(num) != 0 ==>
        (Valid() && Get() == Over(old(Get()), Whole(old(num))) <==> Abs(old(num) as int) == 1)
      ensures Abs(old(num) as int) > 1 ==> den == 0
    {
      ghost var x := Get();
      if num == 0 {
        return Fail(ZeroDenominator);
      }
      OwnNumerator(x);
      var gcd := GcdInt(num, num);
      num := Div(num, gcd);
      den := den * Div(num, gcd);
      if den < 0 {
        num := -num;
        den := -den;
      }
      return Pass;
    }

    method Increment()
      requires Valid() && FractionFits(Plus(Get(), Fraction(1, 1)), TheType)
      modifies this
      ensures Valid() && Get() == Plus(old(Get()), Fraction(1, 1))
      ensures Value(Get()) == old(Value(Get())) + 1.0
    {
      SumIsExact(Get(), Fraction(1, 1));
      CountingOverflowsOnlyIfItMust(Get(), TheType);
      num := num + den;
    }

    method Decrement()
      requires Valid() && FractionFits(Minus(Get(), Fraction(1, 1)), TheType)
      modifies this
      ensures Valid() && Get() == Minus(old(Get()), Fraction(1, 1))
      ensures Value(Get()) == old(Value(Get())) - 1.0
    {
      DifferenceIsExact(Get(), Fraction(1, 1));
      CountingOverflowsOnlyIfItMust(Get(), TheType);
      num := num - den;
    }

    // ----- Comparison

    /** Field-wise equality decides equality of the numbers. */
    method Equals(r: Rational) returns (equal: bool)
      requires Valid() && r.Valid()
      ensures equal <==> Value(Get()) == Value(r.Get())
    {
      NormalFormIsCanonical(Get(), r.Get());
      equal := num == r.num && den == r.den;
    }

    /** Parallel continued-fraction expansion. Its rounds are those of `MachineLess`, which is proved to
        succeed: no round leaves the type, the lowest numerator included. */
    method LessThan(r: Rational) returns (less: bool)
      requires den > 0 && r.den > 0
      ensures MachineLess(Get(), r.Get(), TheType) == Exactly(less)
      ensures less <==> Get().n * r.Get().d < r.Get().n * Get().d
      ensures less <==> Value(Get()) < Value(r.Get())
    {
      LessNeverOverflows(Get(), r.Get(), TheType);
      ghost var whole := MachineLess(Get(), r.Get(), TheType);
      var tn, td := num, den;
      var rn, rd := r.num, r.den;
      var tq, tr := MixedFraction(tn, td);
      var rq, rr := MixedFraction(rn, rd);
      var reverse := false;
      while true
        invariant 0 <= tr < td && 0 <= rr < rd && whole.Exactly?
        invariant MachineExpand(tq as int, tr as int, td as int, rq as int, rr as int, rd as int, reverse, TheType)
               == whole
        decreases td as int
      {
        if tq != rq {
          return if reverse then tq > rq else tq < rq;
        }
        reverse := !reverse;
        if tr == 0 || rr == 0 {
          break;
        }
        TruncDivMod(td as int, tr as int);
        TruncDivMod(rd as int, rr as int);
        tn := td;
        td := tr;
        tq := Div(tn, td);
        tr := Mod(tn, td);
        rn := rd;
        rd := rr;
        rq := Div(rn, rd);
        rr := Mod(rn, rd);
      }
      if tr == rr {
        return false;
      } else {
        return (tr != 0) != reverse;
      }
    }

    method GreaterThan(r: Rational) returns (greater: bool)
      requires den > 0 && r.den > 0
      ensures greater <==> Value(Get()) > Value(r.Get())
    {
      greater := r.LessThan(this);
    }

    /** n/d < i iff floor(n/d) < i. */
    method LessThanInteger(i: Int) returns (less: bool)
      requires den > 0
      ensures less <==> Value(Get()) < i as int as real
    {
      var q, r := MixedFraction(num, den);
      FloorDecides(num as int, den as int, q as int, r as int, i as int);
      OrderedValues(Get(), Whole(i));
      less := q < i;
    }

    method EqualsInteger(i: Int) returns (equal: bool)
      requires Valid()
      ensures equal <==> Value(Get()) == i as int as real
    {
      GcdWithOne(i as int);
      NormalFormIsCanonical(Get(), Whole(i));
      equal := den == 1 && num == i;
    }

    /** `<=`, `>=` and their integer forms are negations of the opposite strict test. */
    method AtMost(r: Rational) returns (holds: bool)
      requires den > 0 && r.den > 0
      ensures holds <==> Value(Get()) <= Value(r.Get())
    {
      holds := GreaterThan(r);
      holds := !holds;
    }

    method AtLeast(r: Rational) returns (holds: bool)
      requires den > 0 && r.den > 0
      ensures holds <==> Value(Get()) >= Value(r.Get())
    {
      holds := LessThan(r);
      holds := !holds;
    }

    method AtMostInteger(i: Int) returns (holds: bool)
      requires Valid()
      ensures holds <==> Value(Get()) <= i as int as real
    {
      holds := GreaterThanInteger(i);
      holds := !holds;
    }

    method AtLeastInteger(i: Int) returns (holds: bool)
      requires Valid()
      ensures holds <==> Value(Get()) >= i as int as real
    {
      holds := LessThanInteger(i);
      holds := !holds;
    }

    method GreaterThanInteger(i: Int) returns (greater: bool)
      requires Valid()
      ensures greater <==> Value(Get()) > i as int as real
    {
      var equal := EqualsInteger(i);
      var less := LessThanInteger(i);
      greater := if equal then false else !less;
    }
  }

  /** Zero divided by anything is stored as it was. */
  lemma ZeroOver(x: Fraction, y: Fraction)
    requires Normal(x) && x.n == 0 && y.d != 0 && y.n != 0
    ensures Over(x, y) == x
  {
    ZeroIsOverOne(x);
    NonZeroProduct(x.d, y.n);
    CanonIsTheNormalForm(x, x.n * y.d, x.d * y.n);
  }

  /** A non-zero numerator over its own gcd is its sign, which the gcd divides to zero unless it is 1. */
  lemma OwnNumerator(x: Fraction)
    requires Normal(x) && x.n != 0
    ensures Gcd(x.n, x.n) == Abs(x.n) > 0
    ensures var sign := TruncDiv(x.n, Abs(x.n));
            var after := x.d * TruncDiv(sign, Abs(x.n));
            && sign == (if x.n > 0 then 1 else -1)
            && TruncDiv(sign, Abs(x.n)) == (if Abs(x.n) > 1 then 0 else sign)
            && after == (if Abs(x.n) > 1 then 0 else if x.n > 0 then x.d else -x.d)
    ensures Abs(x.n) == 1 ==> Over(x, Fraction(x.n, 1)) == Fraction(1, x.d)
  {
    var a, sign := Abs(x.n), if x.n > 0 then 1 else -1;
    EuclidOfEqual(a);
    ExactDivision(x.n, a, sign);
    if a == 1 {
      ExactDivision(sign, 1, sign);
      NonZeroProduct(x.d, x.n);
      GcdWithOne(x.d);
      CanonIsTheNormalForm(Fraction(1, x.d), x.n * 1, x.d * x.n);
    } else {
      assert 1 / a == 0;
    }
  }

  /** Truncated division, then the remainder is brought up to a non-negative one, by the steps of
      `MachineMixed`. */
  method MixedFraction(n: Int, d: Int) returns (q: Int, r: Int)
    requires d > 0
    ensures IsMixed(n as int, d as int, q as int, r as int)
    ensures MachineMixed(n as int, d as int, TheType) == Exactly((q as int, r as int))
  {
    ghost var q', r' := MixedFits(n as int, d as int, TheType);
    TruncDivMod(n as int, d as int);
    q := Div(n, d);
    r := Mod(n, d);
    while r < 0
      invariant n as int == q as int * d as int + r as int && -(d as int) < r as int < d as int
      invariant LiftRemainder(q as int, r as int, d as int, TheType) == MachineMixed(n as int, d as int, TheType)
      decreases -(r as int)
    {
      r := r + d;
      q := q - 1;
    }
  }

  // ----- The gcd and lcm evaluators

  /** The two-argument constructor on a positive denominator, which never throws. */
  method FromParts(n: Int, d: Int) returns (r: Rational)
    requires d > 0
    ensures r.Valid() && r.Get() == Canon(n as int, d as int)
  {
    PositiveDenominatorFits(n as int, d as int, TheType);
    var outcome;
    outcome, r := Rational.Create(n, d);
  }

  method GcdEvaluator(a: Rational, b: Rational) returns (r: Rational)
    requires a.Valid() && b.Valid()
    requires Fits(Gcd(a.Get().n, b.Get().n), TheType) && Fits(Lcm(a.Get().d, b.Get().d), TheType)
    ensures r.Valid() && r.Get() == GcdOf(a.Get(), b.Get())
    ensures r.num >= 0 && Value(r.Get()) >= 0.0
  {
    GcdIsNotNegative(a.Get(), b.Get());
    LcmPositive(a.Get().d, b.Get().d);
    r := FromParts(GcdInt(a.num, b.num), LcmInt(a.den, b.den));
  }

  method LcmEvaluator(a: Rational, b: Rational) returns (r: Rational)
    requires a.Valid() && b.Valid()
    requires Fits(Lcm(a.Get().n, b.Get().n), TheType) && Fits(Gcd(a.Get().d, b.Get().d), TheType)
    ensures r.Valid() && r.Get() == LcmOf(a.Get(), b.Get())
    ensures r.num >= 0 && Value(r.Get()) >= 0.0
  {
    LcmIsNotNegative(a.Get(), b.Get());
    GcdPositive(a.Get().d, b.Get().d);
    r := FromParts(LcmInt(a.num, b.num), GcdInt(a.den, b.den));
  }
}
