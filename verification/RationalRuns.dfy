/** Runs of mutating operations on one `rational` object: what is stored and what exact number it is. */
module RationalRuns {
  import opened Integers
  import opened MachineIntegers
  import opened RationalNumbers
  import opened Reduction
  import opened MachineRange
  import opened RationalObjects

  /** The right-hand side of an operation: another rational, or the object itself. */
  datatype Operand = Other(y: Fraction) | Itself

  datatype Kind = Add | Subtract | Multiply | Divide

  datatype Operation = ByRational(kind: Kind, y: Operand) | ByInteger(kind: Kind, i: Int) | Up | Down

  predicate Usable(op: Operation) {
    op.ByRational? && op.y.Other? ==> Normal(op.y.y) && FractionFits(op.y.y, TheType)
  }

  // ----- The stored fraction

  function OperandOf(x: Fraction, y: Operand): Fraction {
    match y
    case Other(z) => z
    case Itself => x
  }

  /** A division by zero throws and changes nothing. */
  ghost function Combined(kind: Kind, x: Fraction, y: Fraction): (z: Fraction)
    requires Normal(x) && Normal(y)
    ensures Normal(z)
  {
    match kind
    case Add => Plus(x, y)
    case Subtract => Minus(x, y)
    case Multiply => Times(x, y)
    case Divide => if y.n == 0 then x else Over(x, y)
  }

  /** What the range asks of a kind of operation. */
  ghost predicate CombinedFits(kind: Kind, x: Fraction, y: Fraction)
    requires Normal(x) && Normal(y)
  {
    match kind
    case Add => PlusFits(x, y, TheType)
    case Subtract => MinusFits(x, y, TheType)
    case Multiply => FractionFits(Times(x, y), TheType)
    case Divide => y.n == 0 || OverFits(x, y, TheType)
  }

  ghost predicate CombinedIntegerFits(kind: Kind, x: Fraction, i: Int)
    requires Normal(x) && Normal(Whole(i))
  {
    match kind
    case Add => IntegerFits(x, i as int, Plus(x, Whole(i)), TheType)
    case Subtract => IntegerFits(x, i as int, Minus(x, Whole(i)), TheType)
    case Multiply => FractionFits(Times(x, Whole(i)), TheType)
    case Divide => i == 0 || OverFits(x, Whole(i), TheType)
  }

  lemma WholeIsNormal(i: Int)
    ensures Normal(Whole(i)) && Value(Whole(i)) == i as int as real
  {
    GcdWithOne(i as int);
  }

  ghost function Stored(x: Fraction, op: Operation): (z: Fraction)
    requires Normal(x) && Usable(op)
    ensures Normal(z)
  {
    match op
    case ByRational(kind, y) => Combined(kind, x, OperandOf(x, y))
    case ByInteger(kind, i) => WholeIsNormal(i); Combined(kind, x, Whole(i))
    case Up => Plus(x, Fraction(1, 1))
    case Down => Minus(x, Fraction(1, 1))
  }

  ghost predicate StepFits(x: Fraction, op: Operation)
    requires Normal(x) && Usable(op)
  {
    match op
    case ByRational(kind, y) => CombinedFits(kind, x, OperandOf(x, y))
    case ByInteger(kind, i) => WholeIsNormal(i); CombinedIntegerFits(kind, x, i)
    case Up => FractionFits(Plus(x, Fraction(1, 1)), TheType)
    case Down => FractionFits(Minus(x, Fraction(1, 1)), TheType)
  }

  ghost predicate AllUsable(ops: seq<Operation>) {
    forall op :: op in ops ==> Usable(op)
  }

  ghost function StoredRun(x: Fraction, ops: seq<Operation>): (z: Fraction)
    requires Normal(x) && AllUsable(ops)
    ensures Normal(z)
  {
    if ops == [] then x else Stored(StoredRun(x, ops[..|ops| - 1]), ops[|ops| - 1])
  }

  /** No step of the run leaves the range. */
  ghost predicate RunFits(x: Fraction, ops: seq<Operation>)
    requires Normal(x) && AllUsable(ops)
  {
    ops != [] ==>
      RunFits(x, ops[..|ops| - 1]) && StepFits(StoredRun(x, ops[..|ops| - 1]), ops[|ops| - 1])
  }

  // ----- The exact number

  ghost function OperandValue(v: real, y: Operand): real
    requires y.Other? ==> Normal(y.y)
  {
    if y.Other? then Value(y.y) else v
  }

  /** What a kind of operation does to exact numbers. */
  ghost function Combine(kind: Kind, v: real, w: real): real {
    match kind
    case Add => v + w
    case Subtract => v - w
    case Multiply => v * w
    case Divide => if w == 0.0 then v else v / w
  }

  ghost function Meaning(v: real, op: Operation): real
    requires Usable(op)
  {
    match op
    case ByRational(kind, y) => Combine(kind, v, OperandValue(v, y))
    case ByInteger(kind, i) => Combine(kind, v, i as int as real)
    case Up => v + 1.0
    case Down => v - 1.0
  }

  ghost function RunMeaning(v: real, ops: seq<Operation>): real
    requires AllUsable(ops)
  {
    if ops == [] then v else Meaning(RunMeaning(v, ops[..|ops| - 1]), ops[|ops| - 1])
  }

  lemma CombinedValue(kind: Kind, x: Fraction, y: Fraction)
    requires Normal(x) && Normal(y)
    ensures Value(Combined(kind, x, y)) == Combine(kind, Value(x), Value(y))
  {
    match kind
    case Add => SumIsExact(x, y);
    case Subtract => DifferenceIsExact(x, y);
    case Multiply => ProductIsExact(x, y);
    case Divide =>
      EqualValues(y, Fraction(0, 1));
      if y.n != 0 {
        QuotientIsExact(x, y);
      }
  }

  /** What is stored stands for the exact number. */
  lemma StoredValue(x: Fraction, op: Operation)
    requires Normal(x) && Usable(op)
    ensures Value(Stored(x, op)) == Meaning(Value(x), op)
  {
    match op
    case ByRational(kind, y) => CombinedValue(kind, x, OperandOf(x, y));
    case ByInteger(kind, i) =>
      WholeIsNormal(i);
      CombinedValue(kind, x, Whole(i));
    case Up => SumIsExact(x, Fraction(1, 1));
    case Down => DifferenceIsExact(x, Fraction(1, 1));
  }

  lemma {:induction false} StoredRunValue(x: Fraction, ops: seq<Operation>)
    requires Normal(x) && AllUsable(ops)
    ensures Value(StoredRun(x, ops)) == RunMeaning(Value(x), ops)
  {
    if ops != [] {
      StoredRunValue(x, ops[..|ops| - 1]);
      StoredValue(StoredRun(x, ops[..|ops| - 1]), ops[|ops| - 1]);
    }
  }

  // ----- What a run is, in plain arithmetic

  /** Runs compose, and the empty run changes nothing. */
  lemma {:induction false} RunsCompose(v: real, a: seq<Operation>, b: seq<Operation>)
    requires AllUsable(a) && AllUsable(b)
    ensures AllUsable(a + b) && RunMeaning(v, a + b) == RunMeaning(RunMeaning(v, a), b)
    ensures RunMeaning(v, []) == v
  {
    if b == [] {
      assert a + b == a;
    } else {
      assert (a + b)[..|a + b| - 1] == a + b[..|b| - 1];
      RunsCompose(v, a, b[..|b| - 1]);
    }
  }

  lemma RunOfOne(v: real, op: Operation)
    requires Usable(op)
    ensures RunMeaning(v, [op]) == Meaning(v, op)
  {
    assert [op][..0] == [];
  }

  /** One operation with another rational n/d. */
  lemma RunWithOther(v: real, n: int, d: int)
    requires Usable(ByRational(Add, Other(Fraction(n, d))))
    ensures d > 0
    ensures var w, y := n as real / d as real, Other(Fraction(n, d));
            && RunMeaning(v, [ByRational(Add, y)]) == v + w
            && RunMeaning(v, [ByRational(Subtract, y)]) == v - w
            && RunMeaning(v, [ByRational(Multiply, y)]) == v * w
            && (n == 0 ==> RunMeaning(v, [ByRational(Divide, y)]) == v)
            && (n != 0 ==> w != 0.0 && RunMeaning(v, [ByRational(Divide, y)]) == v / w)
  {
    var y := Other(Fraction(n, d));
    RunOfOne(v, ByRational(Add, y));
    RunOfOne(v, ByRational(Subtract, y));
    RunOfOne(v, ByRational(Multiply, y));
    RunOfOne(v, ByRational(Divide, y));
    EqualValues(Fraction(n, d), Fraction(0, 1));
  }

  /** One operation with the object itself. */
  lemma RunWithItself(v: real)
    ensures RunMeaning(v, [ByRational(Add, Itself)]) == v + v
    ensures RunMeaning(v, [ByRational(Subtract, Itself)]) == 0.0
    ensures RunMeaning(v, [ByRational(Multiply, Itself)]) == v * v
    ensures RunMeaning(v, [ByRational(Divide, Itself)]) == if v == 0.0 then 0.0 else 1.0
  {
    RunOfOne(v, ByRational(Add, Itself));
    RunOfOne(v, ByRational(Subtract, Itself));
    RunOfOne(v, ByRational(Multiply, Itself));
    RunOfOne(v, ByRational(Divide, Itself));
  }

  /** One operation with an integer, and the counting steps. */
  lemma RunWithInteger(v: real, i: Int)
    ensures RunMeaning(v, [ByInteger(Add, i)]) == v + i as int as real
    ensures RunMeaning(v, [ByInteger(Subtract, i)]) == v - i as int as real
    ensures RunMeaning(v, [ByInteger(Multiply, i)]) == v * i as int as real
    ensures i == 0 ==> RunMeaning(v, [ByInteger(Divide, i)]) == v
    ensures i != 0 ==> RunMeaning(v, [ByInteger(Divide, i)]) == v / i as int as real
    ensures RunMeaning(v, [Up]) == v + 1.0 && RunMeaning(v, [Down]) == v - 1.0
  {
    RunOfOne(v, ByInteger(Add, i));
    RunOfOne(v, ByInteger(Subtract, i));
    RunOfOne(v, ByInteger(Multiply, i));
    RunOfOne(v, ByInteger(Divide, i));
    RunOfOne(v, Up);
    RunOfOne(v, Down);
  }

  /** A run stays in range when each part does where it starts; a run of one step, when the step does. */
  lemma {:induction false} FittingRunsCompose(x: Fraction, a: seq<Operation>, b: seq<Operation>)
    requires Normal(x) && AllUsable(a) && AllUsable(b)
    ensures AllUsable(a + b) && StoredRun(x, a + b) == StoredRun(StoredRun(x, a), b)
    ensures RunFits(x, a + b) <==> RunFits(x, a) && RunFits(StoredRun(x, a), b)
    ensures RunFits(x, [])
  {
    if b == [] {
      assert a + b == a;
    } else {
      assert (a + b)[..|a + b| - 1] == a + b[..|b| - 1];
      FittingRunsCompose(x, a, b[..|b| - 1]);
    }
  }

  lemma FittingRunOfOne(x: Fraction, op: Operation)
    requires Normal(x) && Usable(op)
    ensures StoredRun(x, [op]) == Stored(x, op) && (RunFits(x, [op]) <==> StepFits(x, op))
  {
    assert [op][..0] == [];
  }

  /** On an integer type of unlimited precision every run fits. */
  lemma {:induction false} UnlimitedRunsFit(x: Fraction, ops: seq<Operation>)
    requires Normal(x) && AllUsable(ops) && TheType.Unlimited?
    ensures RunFits(x, ops)
  {
    if ops != [] {
      UnlimitedRunsFit(x, ops[..|ops| - 1]);
    }
  }

  // ----- The object

  method OperandObject(r: Rational, y: Operand) returns (rhs: Rational)
    requires r.Valid() && (y.Other? ==> Normal(y.y) && FractionFits(y.y, TheType))
    ensures rhs.Valid() && rhs.Get() == OperandOf(r.Get(), y)
    ensures rhs == r || fresh(rhs)
  {
    if y.Other? {
      rhs := new Rational.Unnormalized(y.y.n as Int, y.y.d as Int);
    } else {
      rhs := r;
    }
  }

  method ApplyRational(r: Rational, kind: Kind, rhs: Rational)
    requires r.Valid() && rhs.Valid() && CombinedFits(kind, r.Get(), rhs.Get())
    modifies r
    ensures r.Valid() && r.Get() == Combined(kind, old(r.Get()), old(rhs.Get()))
  {
    match kind
    case Add => r.AddAssign(rhs);
    case Subtract => r.SubtractAssign(rhs);
    case Multiply => r.MultiplyAssign(rhs);
    case Divide => var outcome := r.DivideAssign(rhs);
  }

  method ApplyInteger(r: Rational, kind: Kind, i: Int)
    requires r.Valid() && Normal(Whole(i)) && CombinedIntegerFits(kind, r.Get(), i)
    modifies r
    ensures r.Valid() && r.Get() == Combined(kind, old(r.Get()), Whole(i))
  {
    match kind
    case Add => r.AddInteger(i);
    case Subtract => r.SubtractInteger(i);
    case Multiply => r.MultiplyInteger(i);
    case Divide => var outcome := r.DivideInteger(i);
  }

  method Apply(r: Rational, op: Operation)
    requires r.Valid() && Usable(op) && StepFits(r.Get(), op)
    modifies r
    ensures r.Valid() && r.Get() == Stored(old(r.Get()), op)
  {
    match op
    case ByRational(kind, y) =>
      var rhs := OperandObject(r, y);
      ApplyRational(r, kind, rhs);
    case ByInteger(kind, i) =>
      WholeIsNormal(i);
      ApplyInteger(r, kind, i);
    case Up => r.Increment();
    case Down => r.Decrement();
  }

  lemma RunFitsSoFar(x: Fraction, ops: seq<Operation>, k: nat)
    requires Normal(x) && AllUsable(ops) && k < |ops| && RunFits(x, ops)
    ensures AllUsable(ops[..k]) && AllUsable(ops[..k + 1])
    ensures StepFits(StoredRun(x, ops[..k]), ops[k])
    ensures StoredRun(x, ops[..k + 1]) == Stored(StoredRun(x, ops[..k]), ops[k])
    decreases |ops|
  {
    assert ops[..k + 1][..k] == ops[..k];
    if k + 1 == |ops| {
      assert ops[..k + 1] == ops;
    } else {
      var front := ops[..|ops| - 1];
      assert front[..k] == ops[..k] && front[..k + 1] == ops[..k + 1];
      RunFitsSoFar(x, front, k);
    }
  }

  /** Every run that stays in range, whatever its operands and with the object itself as operand too,
      keeps the invariant, stores the lowest-terms result of every step and computes the exact number. */
  method Run(r: Rational, ops: seq<Operation>)
    requires r.Valid() && AllUsable(ops) && RunFits(r.Get(), ops)
    modifies r
    ensures r.Valid() && r.Get() == StoredRun(old(r.Get()), ops)
    ensures Value(r.Get()) == RunMeaning(old(Value(r.Get())), ops)
  {
    ghost var x := r.Get();
    StoredRunValue(x, ops);
    var k := 0;
    while k < |ops|
      invariant k <= |ops| && AllUsable(ops[..k]) && r.Valid()
      invariant r.Get() == StoredRun(x, ops[..k])
    {
      RunFitsSoFar(x, ops, k);
      Apply(r, ops[k]);
      k := k + 1;
    }
    assert ops[..|ops|] == ops;
  }
}
