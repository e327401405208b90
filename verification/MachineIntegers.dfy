/** The integer type of a rational. Which type it is, is left open: any two's-complement type or one of
    unlimited precision. Its arithmetic is partial, as the source's is: a sum, product, quotient, gcd or
    negative that the type does not hold has no value here, and may not be formed. */
module MachineIntegers {
  import opened Integers

  const TheType: IntegerType

  newtype Int = v: int | Fits(v, TheType) witness 0

  /** What `numeric_limits` reports as the maximum. */
  function Largest(): (m: Int)
    ensures m as int == TheType.max
  {
    TheType.max as Int
  }

  /** The source's division and remainder, truncated toward zero. */
  function Div(a: Int, b: Int): (q: Int)
    requires b != 0 && Fits(TruncDiv(a as int, b as int), TheType)
    ensures q as int == TruncDiv(a as int, b as int)
  {
    TruncDiv(a as int, b as int) as Int
  }

  function Mod(a: Int, b: Int): (r: Int)
    requires b != 0 && Fits(TruncMod(a as int, b as int), TheType)
    ensures r as int == TruncMod(a as int, b as int)
  {
    TruncMod(a as int, b as int) as Int
  }

  function GcdInt(a: Int, b: Int): (g: Int)
    requires Fits(Gcd(a as int, b as int), TheType)
    ensures g as int == Gcd(a as int, b as int)
  {
    Gcd(a as int, b as int) as Int
  }

  function LcmInt(a: Int, b: Int): (m: Int)
    requires Fits(Lcm(a as int, b as int), TheType)
    ensures m as int == Lcm(a as int, b as int)
  {
    Lcm(a as int, b as int) as Int
  }
}
