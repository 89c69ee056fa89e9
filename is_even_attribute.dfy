/**
 * The custom `IsEven` validation attribute: it converts the value to a
 * 32-bit integer and accepts it exactly when the C# remainder by 2 is zero.
 * When it rejects, the message is the fixed text it was constructed with.
 */
module IsEvenAttribute {
  import opened Conversions

  /** The error message passed to the base `ValidationAttribute`. */
  const NotEvenMessage: string := "Value is not an even number"

  /**
   * The three ways a check can end: the value passes, it fails with the
   * attribute's message, or the conversion throws before any test is made.
   */
  datatype Verdict = Valid | Invalid(message: string) | ConversionFailure(error: ConversionError)

  /** `IsEvenAttribute.IsValid(object value)`. */
  function IsValid(value: Argument): (v: Verdict)
    ensures v.ConversionFailure? <==> ToInt32(value).Failed?
    ensures v.ConversionFailure? ==> v.error == ToInt32(value).error
    ensures v.Invalid? ==> v.message == NotEvenMessage
    ensures ToInt32(value).Converted? ==> (v.Valid? <==> ToInt32(value).value % 2 == 0)
  {
    match ToInt32(value)
    case Failed(e) => ConversionFailure(e)
    case Converted(n) =>
      RemainderBy2ZeroIff(n);
      if RemainderBy2(n) == 0 then Valid else Invalid(NotEvenMessage)
  }

  /** On a 32-bit integer the verdict is "valid" iff `n % 2 == 0`, else the fixed message. */
  lemma IntegerVerdict(n: Int32)
    ensures IsValid(IntVal(n)) == if n % 2 == 0 then Valid else Invalid(NotEvenMessage)
  {
  }

  /** Zero, the default of an `int` field, passes; so does a null reference, which converts to 0. */
  lemma ZeroIsValid()
    ensures IsValid(IntVal(0)) == Valid
    ensures IsValid(Null) == Valid
  {
  }

  /** The sign of the value does not change the verdict, whenever its negation is still 32-bit. */
  lemma SignIrrelevant(n: Int32)
    requires InInt32Range(-(n as int))
    ensures IsValid(IntVal(n)) == IsValid(IntVal(-(n as int)))
  {
    RemainderBy2ZeroIff(n);
    RemainderBy2ZeroIff(-(n as int));
  }

  /**
   * The one 32-bit value whose negation is not 32-bit: `int.MinValue` is even,
   * but its negation, passed as a wider number, overflows the conversion.
   */
  lemma MinValueNegationOverflows()
    ensures IsValid(IntVal(MinInt32)) == Valid
    ensures IsValid(IntVal(-MinInt32)) == ConversionFailure(Overflow)
  {
  }

  /** Stepping by two keeps the verdict, within the 32-bit range. */
  lemma StepByTwo(n: Int32)
    requires InInt32Range(n as int + 2)
    ensures IsValid(IntVal(n)) == IsValid(IntVal(n as int + 2))
  {
    RemainderBy2ZeroIff(n);
    RemainderBy2ZeroIff(n as int + 2);
  }

  /** A value that cannot be converted is never judged valid or invalid. */
  lemma ConversionFailureIsDistinct(value: Argument)
    requires value.Unconvertible? || (value.IntVal? && !InInt32Range(value.i))
    ensures IsValid(value).ConversionFailure?
    ensures value.Unconvertible? ==> IsValid(value).error == InvalidFormat
    ensures value.IntVal? ==> IsValid(value).error == Overflow
  {
  }

  /** Whatever the input, a rejection carries the same message. */
  lemma MessageIsFixed(a: Argument, b: Argument)
    requires IsValid(a).Invalid? && IsValid(b).Invalid?
    ensures IsValid(a).message == IsValid(b).message == "Value is not an even number"
  {
  }
}
