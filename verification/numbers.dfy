/** The numeric conversions: `ToFloat[OrNull]`, `ToDouble[OrNull]`, `ToDecimal[OrNull]`,
    and the fallback chains of `ToInt[OrNull]` (through `double`) and `ToLong[OrNull]`
    (through `decimal`). */
module Numbers {
  import opened Wrappers
  import opened Platform
  import opened Strings
  import opened Text

  /** Digit counts `Math.Round(double, int)` accepts; others throw `ArgumentOutOfRangeException`. */
  predicate DoubleDigitsValid(d: int) { 0 <= d <= 15 }

  /** Digit counts `Math.Round(decimal, int)` accepts; others throw `ArgumentOutOfRangeException`. */
  predicate DecimalDigitsValid(d: int) { 0 <= d <= 28 }

  /** The convenience form of a nullable conversion: `?? zero`, with an escaping exception
      passed through. */
  function OrZero<T>(r: Result<Option<T>>, zero: T): (v: Result<T>)
    ensures v.Err? <==> r.Err?
    ensures r.Ok? && r.value.Some? ==> v == Ok(r.value.value)
    ensures r.Ok? && r.value.None? ==> v == Ok(zero)
  {
    match r
    case Ok(o) => Ok(o.GetOr(zero))
    case Err(e) => Err(e)
  }

  /** `ToFloatOrNull(input, digits)`: `float.TryParse` of the normalised text, then, when a
      digit count is given, `(float)Math.Round(value, digits)`. A failed parse gives null
      whatever the digit count; a bad digit count after a successful parse throws. */
  function ToFloatOrNull(p: Primitives, input: Input, digits: Option<int>): (r: Result<Option<Ieee>>)
    ensures r == Ok(None) <==> p.parseSingle(SafeString(input)).None?
    ensures r.Err? <==>
      p.parseSingle(SafeString(input)).Some? && digits.Some? && !DoubleDigitsValid(digits.value)
    ensures digits.None? ==> r == Ok(p.parseSingle(SafeString(input)))
  {
    match p.parseSingle(SafeString(input))
    case None => Ok(None)
    case Some(x) =>
      if digits.None? then Ok(Some(x))
      else if !DoubleDigitsValid(digits.value) then Err(ArgumentOutOfRange)
      else Ok(Some(p.doubleToSingle(p.roundDouble(x, digits.value))))
  }

  function ToFloat(p: Primitives, input: Input, digits: Option<int>): (r: Result<Ieee>)
    ensures r.Err? <==> ToFloatOrNull(p, input, digits).Err?
    ensures r.Ok? ==> r.value == ToFloatOrNull(p, input, digits).value.GetOr(IeeeZero)
  {
    OrZero(ToFloatOrNull(p, input, digits), IeeeZero)
  }

  /** `ToDoubleOrNull(input, digits)`: `double.TryParse` of the normalised text, then, when a
      digit count is given, `Math.Round(value, digits)` (ties to even). */
  function ToDoubleOrNull(p: Primitives, input: Input, digits: Option<int>): (r: Result<Option<Ieee>>)
    ensures r == Ok(None) <==> p.parseDouble(SafeString(input)).None?
    ensures r.Err? <==>
      p.parseDouble(SafeString(input)).Some? && digits.Some? && !DoubleDigitsValid(digits.value)
    ensures digits.None? ==> r == Ok(p.parseDouble(SafeString(input)))
  {
    match p.parseDouble(SafeString(input))
    case None => Ok(None)
    case Some(x) =>
      if digits.None? then Ok(Some(x))
      else if !DoubleDigitsValid(digits.value) then Err(ArgumentOutOfRange)
      else Ok(Some(p.roundDouble(x, digits.value)))
  }

  function ToDouble(p: Primitives, input: Input, digits: Option<int>): (r: Result<Ieee>)
    ensures r.Err? <==> ToDoubleOrNull(p, input, digits).Err?
    ensures r.Ok? ==> r.value == ToDoubleOrNull(p, input, digits).value.GetOr(IeeeZero)
  {
    OrZero(ToDoubleOrNull(p, input, digits), IeeeZero)
  }

  /** `ToDecimalOrNull(input, digits)`: `decimal.TryParse` of the normalised text, then, when
      a digit count is given, `Math.Round(value, digits)` (ties to even). */
  function ToDecimalOrNull(p: Primitives, input: Input, digits: Option<int>): (r: Result<Option<real>>)
    ensures r == Ok(None) <==> p.parseDecimal(SafeString(input)).None?
    ensures r.Err? <==>
      p.parseDecimal(SafeString(input)).Some? && digits.Some? && !DecimalDigitsValid(digits.value)
    ensures digits.None? ==> r == Ok(p.parseDecimal(SafeString(input)))
  {
    match p.parseDecimal(SafeString(input))
    case None => Ok(None)
    case Some(x) =>
      if digits.None? then Ok(Some(x))
      else if !DecimalDigitsValid(digits.value) then Err(ArgumentOutOfRange)
      else Ok(Some(p.roundDecimal(x, digits.value)))
  }

  function ToDecimal(p: Primitives, input: Input, digits: Option<int>): (r: Result<real>)
    ensures r.Err? <==> ToDecimalOrNull(p, input, digits).Err?
    ensures r.Ok? ==> r.value == ToDecimalOrNull(p, input, digits).value.GetOr(0.0)
  {
    OrZero(ToDecimalOrNull(p, input, digits), 0.0)
  }

  /** `ToIntOrNull`: `int.TryParse` of the normalised text; failing that, the text read as a
      `double` rounded to 0 digits and narrowed by `Convert.ToInt32`, whose overflow is caught.
      Any failure along the chain gives null. */
  function ToIntOrNull(p: Primitives, input: Input): (r: Option<int>)
    ensures p.parseInt32(SafeString(input)).Some? ==> r == p.parseInt32(SafeString(input))
    ensures p.parseInt32(SafeString(input)).None? ==>
      (r.Some? <==>
        && p.parseDouble(SafeString(input)).Some?
        && p.roundDouble(p.parseDouble(SafeString(input)).value, 0).Finite?
        && InInt32(RoundHalfEven(p.roundDouble(p.parseDouble(SafeString(input)).value, 0).value)))
    ensures p.parseInt32(SafeString(input)).None? && r.Some? ==>
      var d := p.roundDouble(p.parseDouble(SafeString(input)).value, 0).value;
      -0.5 <= r.value as real - d <= 0.5 && r.value == RoundHalfEven(d)
    ensures WellFormed(p) && r.Some? ==> InInt32(r.value)
  {
    match p.parseInt32(SafeString(input))
    case Some(n) => Some(n)
    case None =>
      match ToDoubleOrNull(p, input, Some(0))
      case Ok(Some(d)) =>
        ConvertToInt32IsRoundHalfEven(d);
        ConvertToInt32(d)
      case _ => None
  }

  /** `ToInt`: `ToIntOrNull(input) ?? 0`. */
  function ToInt(p: Primitives, input: Input): (r: int)
    ensures ToIntOrNull(p, input) == Some(r) || (ToIntOrNull(p, input).None? && r == 0)
    ensures WellFormed(p) ==> InInt32(r)
  {
    ToIntOrNull(p, input).GetOr(0)
  }

  /** `ToLongOrNull`: `long.TryParse` of the normalised text; failing that, the text read as
      a `decimal` rounded to 0 digits and narrowed by `Convert.ToInt64`, whose overflow is
      caught. Any failure along the chain gives null. */
  function ToLongOrNull(p: Primitives, input: Input): (r: Option<int>)
    ensures p.parseInt64(SafeString(input)).Some? ==> r == p.parseInt64(SafeString(input))
    ensures p.parseInt64(SafeString(input)).None? ==>
      (r.Some? <==>
        && p.parseDecimal(SafeString(input)).Some?
        && InInt64(RoundHalfEven(p.roundDecimal(p.parseDecimal(SafeString(input)).value, 0))))
    ensures p.parseInt64(SafeString(input)).None? && r.Some? ==>
      var d := p.roundDecimal(p.parseDecimal(SafeString(input)).value, 0);
      -0.5 <= r.value as real - d <= 0.5 && r.value == RoundHalfEven(d)
    ensures WellFormed(p) && r.Some? ==> InInt64(r.value)
  {
    match p.parseInt64(SafeString(input))
    case Some(n) => Some(n)
    case None =>
      match ToDecimalOrNull(p, input, Some(0))
      case Ok(Some(d)) => ConvertToInt64(d)
      case _ => None
  }

  /** `ToLong`: `ToLongOrNull(input) ?? 0`. */
  function ToLong(p: Primitives, input: Input): (r: int)
    ensures ToLongOrNull(p, input) == Some(r) || (ToLongOrNull(p, input).None? && r == 0)
    ensures WellFormed(p) ==> InInt64(r)
  {
    ToLongOrNull(p, input).GetOr(0)
  }

  /** The integer chains never let an exception out: rounding to 0 digits is always a valid
      request, so the guarded `Math.Round` cannot throw. */
  lemma IntegerChainsNeverThrow(p: Primitives, input: Input)
    ensures ToDoubleOrNull(p, input, Some(0)).Ok?
    ensures ToDecimalOrNull(p, input, Some(0)).Ok?
  {
  }

  /** `Convert.ToInt32(double)` on sample values: ties go to the even neighbour, and values
      that do not fit, NaN and infinities fail (the overflow the int chain catches). */
  lemma ConvertToInt32Samples()
    ensures ConvertToInt32(Finite(2.5)) == Some(2)
    ensures ConvertToInt32(Finite(3.5)) == Some(4)
    ensures ConvertToInt32(Finite(-2.5)) == Some(-2)
    ensures ConvertToInt32(Finite(2.6)) == Some(3)
    ensures ConvertToInt32(Finite(2147483647.4)) == Some(2147483647)
    ensures ConvertToInt32(Finite(2147483647.5)) == None
    ensures ConvertToInt32(Finite(-2147483648.5)) == Some(-2147483648)
    ensures ConvertToInt32(NaN) == None && ConvertToInt32(PositiveInfinity) == None
  {
    assert Truncate(2.5) == 2;
    assert Truncate(3.5) == 3;
    assert Truncate(-2.5) == -2;
    assert Truncate(2.6) == 2;
    assert Truncate(2147483647.4) == 2147483647;
    assert Truncate(-2147483648.5) == -2147483648;
  }

  /** When the strict parse fails and the text reads as an integral `double` in range, the
      fallback returns that integer. */
  lemma FallbackAcceptsIntegralDouble(p: Primitives, input: Input, n: int)
    requires p.parseInt32(SafeString(input)) == None
    requires p.parseDouble(SafeString(input)) == Some(Finite(n as real))
    requires p.roundDouble(Finite(n as real), 0) == Finite(n as real)
    requires InInt32(n)
    ensures ToIntOrNull(p, input) == Some(n)
  {
    assert ToDoubleOrNull(p, input, Some(0)) == Ok(Some(Finite(n as real)));
    ConvertToInt32OfIntegral(n);
  }

  /** A decimal-looking text such as "12.0" is rejected by the strict `int` parse and
      accepted by the `double` fallback. */
  lemma DecimalLookingTextFallsBack(p: Primitives, text: string)
    requires |text| == 4 && text[0] == '1' && text[1] == '2' && text[2] == '.' && text[3] == '0'
    requires p.parseInt32(text) == None
    requires p.parseDouble(text) == Some(Finite(12.0))
    requires p.roundDouble(Finite(12.0), 0) == Finite(12.0)
    ensures ToIntOrNull(p, Str(text)) == Some(12)
  {
    assert !IsWhiteSpace(text[0]) && !IsWhiteSpace(text[3]);
    SafeStringOfTrimmed(text);
    FallbackAcceptsIntegralDouble(p, Str(text), 12);
  }

  /** Text that no parser accepts gives null, and 0 from the convenience form. */
  lemma UnparseableTextIsNull(p: Primitives, input: Input)
    requires p.parseInt32(SafeString(input)) == None && p.parseDouble(SafeString(input)) == None
    requires p.parseInt64(SafeString(input)) == None && p.parseDecimal(SafeString(input)) == None
    ensures ToIntOrNull(p, input) == None && ToInt(p, input) == 0
    ensures ToLongOrNull(p, input) == None && ToLong(p, input) == 0
  {
  }
}
