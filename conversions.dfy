/**
 * The two pieces of .NET arithmetic the `IsEven` rule relies on: converting
 * an argument to a 32-bit integer (`Convert.ToInt32`) and C#'s remainder
 * operator `%`, which truncates toward zero (unlike Dafny's Euclidean `%`).
 */
module Conversions {

  const MinInt32: int := -0x8000_0000
  const MaxInt32: int := 0x7FFF_FFFF

  predicate InInt32Range(x: int) {
    MinInt32 <= x <= MaxInt32
  }

  /** C#'s `int`. */
  type Int32 = x: int | InInt32Range(x)

  /**
   * The argument handed to `Convert.ToInt32(object)`, abstracted: an integral
   * number of any size, a null reference, or a value of a type (or a text)
   * that cannot be read as a number at all.
   */
  datatype Argument = IntVal(i: int) | Null | Unconvertible

  /** `OverflowException` and `FormatException`/`InvalidCastException`. */
  datatype ConversionError = Overflow | InvalidFormat

  datatype Conversion = Converted(value: Int32) | Failed(error: ConversionError)

  /**
   * `Convert.ToInt32(object)`: a null reference converts to 0, an integer
   * outside the 32-bit range overflows, anything else fails to convert.
   */
  function ToInt32(a: Argument): (r: Conversion)
    ensures r.Converted? <==> a.Null? || (a.IntVal? && InInt32Range(a.i))
    ensures r.Converted? && a.IntVal? ==> r.value == a.i
    ensures a.Null? ==> r == Converted(0)
    ensures a.IntVal? && !InInt32Range(a.i) ==> r == Failed(Overflow)
    ensures a.Unconvertible? ==> r == Failed(InvalidFormat)
  {
    match a
    case IntVal(i) => if InInt32Range(i) then Converted(i) else Failed(Overflow)
    case Null => Converted(0)
    case Unconvertible => Failed(InvalidFormat)
  }

  /**
   * C#'s `a % 2`: the remainder of the division truncated toward zero. It is
   * the one value of magnitude below 2, carrying the dividend's sign (or
   * zero), that differs from `a` by an even amount.
   */
  function RemainderBy2(a: int): (r: int)
    ensures -1 <= r <= 1
    ensures r == 0 || (r < 0 <==> a < 0)
    ensures (a - r) % 2 == 0
  {
    if a < 0 then -((-a) % 2) else a % 2
  }

  /**
   * Testing the C# remainder against zero agrees with testing the Euclidean
   * one, although the two differ on negative dividends.
   */
  lemma RemainderBy2ZeroIff(a: int)
    ensures RemainderBy2(a) == 0 <==> a % 2 == 0
  {
  }

  /** On an odd negative dividend C# gives -1 where Dafny's `%` gives 1. */
  lemma OddNegativeRemainder(a: int)
    requires a < 0 && a % 2 == 1
    ensures RemainderBy2(a) == -1
  {
  }
}
