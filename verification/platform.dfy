/** The .NET value types and runtime services the conversion code calls.
    Parsers, rounding with a digit count, date rendering and the enum-description lookup are
    supplied from outside as fields of `Primitives`; integer ranges, `TimeSpan` components and
    the checked `Convert.ToInt32(double)` / `Convert.ToInt64(decimal)` narrowings are modelled
    exactly. */
module Platform {
  import opened Wrappers

  const Int32Min: int := -0x8000_0000
  const Int32Max: int := 0x7FFF_FFFF
  const Int64Min: int := -0x8000_0000_0000_0000
  const Int64Max: int := 0x7FFF_FFFF_FFFF_FFFF

  predicate InInt32(n: int) { Int32Min <= n <= Int32Max }
  predicate InInt64(n: int) { Int64Min <= n <= Int64Max }

  /** A `float` or `double`; a finite one is its exact real value. */
  datatype Ieee = Finite(value: real) | NaN | PositiveInfinity | NegativeInfinity

  const IeeeZero: Ieee := Finite(0.0)

  /** A `DateTime`, by its tick count; `DateTime.MinValue` has zero ticks. */
  datatype DateTime = DateTime(ticks: int)

  const DateTimeMinValue: DateTime := DateTime(0)

  /** A `Guid`, by its 128-bit value; `Guid.Empty` is all zero bits. */
  datatype Guid = Guid(bits: nat)

  const GuidEmpty: Guid := Guid(0)

  /** The named date patterns of `Convert.CommonDateFormat`. Each carries its pattern as a
      description attribute, read back through `Primitives.describeDate`. */
  datatype CommonDateFormat =
    | yyyy_MM_dd
    | yyyy_MM_dd_Cjk
    | HH_mm_ss
    | HH_mm_ss_Cjk
    | yyyy_MM_dd_HH_mm
    | yyyy_MM_dd_HH_mm_Cjk
    | yyyy_MM_dd_HH_mm_ss
    | yyyy_MM_dd_HH_mm_ss_Cjk
    | yyyy_MM_dd_HH_mm_ss_fff
    | yyyy_MM_dd_HH_mm_ss_fff_Cjk

  /** `Convert.CommonTimeSpanFormat`: one total in a single unit, or every component. */
  datatype CommonTimeSpanFormat =
    | TotalDays
    | TotalHours
    | TotalMinutes
    | TotalSeconds
    | TotalMilliseconds
    | TotalAll

  /** Runtime services the conversion code calls but that are not modelled here. `None` stands
      for a `TryParse` returning false or for a call that throws. */
  datatype Primitives = Primitives(
    parseInt32: string -> Option<int>,         // int.TryParse
    parseInt64: string -> Option<int>,         // long.TryParse
    parseSingle: string -> Option<Ieee>,       // float.TryParse
    parseDouble: string -> Option<Ieee>,       // double.TryParse
    parseDecimal: string -> Option<real>,      // decimal.TryParse
    roundDouble: (Ieee, nat) -> Ieee,          // Math.Round(double, digits), digits in 0..15
    roundDecimal: (real, nat) -> real,         // Math.Round(decimal, digits), digits in 0..28
    doubleToSingle: Ieee -> Ieee,              // the (float) cast of a double
    parseDate: string -> Option<DateTime>,     // DateTime.TryParse
    formatDate: (DateTime, string) -> Option<string>,  // DateTime.ToString(pattern); None when it throws
    describeDate: CommonDateFormat -> Option<string>,  // Enum.GetDescription; None is null
    formatTotal: (TimeSpan, CommonTimeSpanFormat) -> string,  // "{0}" of a double total
    parseGuid: string -> Option<Guid>,         // Guid.TryParse
    newGuid: string -> Option<Guid>)           // new Guid(string); None when it throws

  /** What the runtime guarantees of the supplied parsers: `int.TryParse` and `long.TryParse`
      only produce values of their type's range. */
  ghost predicate WellFormed(p: Primitives) {
    && (forall s :: p.parseInt32(s).Some? ==> InInt32(p.parseInt32(s).value))
    && (forall s :: p.parseInt64(s).Some? ==> InInt64(p.parseInt64(s).value))
  }

  /** Truncation toward zero, the `(int)` cast of a real value. */
  function Truncate(x: real): (n: int)
    ensures x >= 0.0 ==> 0.0 <= n as real <= x < n as real + 1.0
    ensures x < 0.0 ==> n as real - 1.0 < x <= n as real <= 0.0
  {
    if x >= 0.0 then x.Floor else -((-x).Floor)
  }

  /** Rounding to the nearest integer, ties to the even neighbour
      (`MidpointRounding.ToEven`, the .NET default). */
  function RoundHalfEven(x: real): (n: int)
    ensures -0.5 <= n as real - x <= 0.5
    ensures (n as real - x == 0.5 || x - n as real == 0.5) ==> n % 2 == 0
  {
    var f := x.Floor;
    var frac := x - f as real;
    if frac < 0.5 then f
    else if frac > 0.5 then f + 1
    else if f % 2 == 0 then f
    else f + 1
  }

  /** Only one integer is within one half of `x` and even at a tie, so the two clauses of
      `RoundHalfEven`'s contract pin it down. */
  lemma RoundHalfEvenUnique(x: real, n: int)
    requires -0.5 <= n as real - x <= 0.5
    requires (n as real - x == 0.5 || x - n as real == 0.5) ==> n % 2 == 0
    ensures n == RoundHalfEven(x)
  {
  }

  /** `Convert.ToInt32(double)` as the runtime writes it: truncate, then step away from zero
      when the remainder exceeds one half or is exactly one half with an odd quotient; values
      outside [-2147483648.5, 2147483647.5), NaN and the infinities throw `OverflowException`
      (here `None`). */
  function ConvertToInt32(d: Ieee): (r: Option<int>)
    ensures r.Some? ==> d.Finite? && InInt32(r.value) && -0.5 <= r.value as real - d.value <= 0.5
    ensures d.Finite? && Int32Min as real - 0.5 <= d.value < Int32Max as real + 0.5 ==> r.Some?
  {
    match d
    case Finite(x) =>
      if x >= 0.0 then
        if x < Int32Max as real + 0.5 then
          var n := Truncate(x);
          var dif := x - n as real;
          Some(if dif > 0.5 || (dif == 0.5 && n % 2 != 0) then n + 1 else n)
        else None
      else
        if x >= Int32Min as real - 0.5 then
          var n := Truncate(x);
          var dif := x - n as real;
          Some(if dif < -0.5 || (dif == -0.5 && n % 2 != 0) then n - 1 else n)
        else None
    case _ => None
  }

  /** `Convert.ToInt32(double)` is round-half-to-even followed by a range check: it succeeds
      exactly on finite values whose rounding fits in an `int`. */
  lemma ConvertToInt32IsRoundHalfEven(d: Ieee)
    ensures ConvertToInt32(d).Some? <==> d.Finite? && InInt32(RoundHalfEven(d.value))
    ensures ConvertToInt32(d).Some? ==> ConvertToInt32(d).value == RoundHalfEven(d.value)
  {
    if d.Finite? {
      var x := d.value;
      var m := RoundHalfEven(x);
      if x >= 0.0 && x < Int32Max as real + 0.5 {
        var n := Truncate(x);
        assert n == x.Floor;
      } else if x < 0.0 && x >= Int32Min as real - 0.5 {
        var n := Truncate(x);
        assert n == x.Floor || n == x.Floor + 1;
      }
    }
  }

  /** An integral `double` in range narrows to itself. */
  lemma ConvertToInt32OfIntegral(n: int)
    requires InInt32(n)
    ensures ConvertToInt32(Finite(n as real)) == Some(n)
  {
    ConvertToInt32IsRoundHalfEven(Finite(n as real));
  }

  /** `Convert.ToInt64(decimal)`: `decimal.Round(value, 0)` (ties to even), then a checked
      conversion that throws `OverflowException` (here `None`) outside the `long` range. */
  function ConvertToInt64(x: real): (r: Option<int>)
    ensures r.Some? <==> InInt64(RoundHalfEven(x))
    ensures r.Some? ==> InInt64(r.value) && -0.5 <= r.value as real - x <= 0.5
    ensures r.Some? && (r.value as real - x == 0.5 || x - r.value as real == 0.5) ==> r.value % 2 == 0
  {
    var n := RoundHalfEven(x);
    if InInt64(n) then Some(n) else None
  }

  const TicksPerMillisecond: int := 10_000
  const TicksPerSecond: int := 10_000_000
  const TicksPerMinute: int := 600_000_000
  const TicksPerHour: int := 36_000_000_000
  const TicksPerDay: int := 864_000_000_000

  /** C# integer division on `long`, which truncates toward zero. */
  function TruncDiv(a: int, b: int): (q: int)
    requires b > 0
    ensures a >= 0 ==> q == a / b
    ensures a < 0 ==> q <= 0 && q * b <= 0 && a - q * b > -b && a - q * b <= 0
  {
    if a >= 0 then a / b else -((-a) / b)
  }

  /** C# `%` on `long`: the remainder takes the sign of the dividend. */
  function TruncRem(a: int, b: int): (r: int)
    requires b > 0
    ensures a >= 0 ==> r == a % b
    ensures a < 0 ==> -b < r <= 0
  {
    a - b * TruncDiv(a, b)
  }

  /** A `TimeSpan`, by its tick count (100 ns units), with the component properties the
      runtime defines: whole days, and the hour, minute, second and millisecond remainders,
      all computed with truncating division. */
  datatype TimeSpan = TimeSpan(ticks: int) {
    function Days(): int { TruncDiv(ticks, TicksPerDay) }
    function Hours(): int { TruncRem(TruncDiv(ticks, TicksPerHour), 24) }
    function Minutes(): int { TruncRem(TruncDiv(ticks, TicksPerMinute), 60) }
    function Seconds(): int { TruncRem(TruncDiv(ticks, TicksPerSecond), 60) }
    function Milliseconds(): int { TruncRem(TruncDiv(ticks, TicksPerMillisecond), 1000) }
  }


  /** A negative span has no positive component. */
  lemma NegativeSpanComponents(span: TimeSpan)
    requires span.ticks < 0
    ensures span.Days() <= 0 && span.Hours() <= 0 && span.Minutes() <= 0
    ensures span.Seconds() <= 0 && span.Milliseconds() <= 0
  {
    TruncRemOfNonPositive(TruncDiv(span.ticks, TicksPerHour), 24);
    TruncRemOfNonPositive(TruncDiv(span.ticks, TicksPerMinute), 60);
    TruncRemOfNonPositive(TruncDiv(span.ticks, TicksPerSecond), 60);
    TruncRemOfNonPositive(TruncDiv(span.ticks, TicksPerMillisecond), 1000);
  }

  lemma TruncRemOfNonPositive(a: int, b: int)
    requires b > 0 && a <= 0
    ensures TruncRem(a, b) <= 0
  {
  }

  /** The components of a non-negative span are in range and add back up to the span
      truncated to whole milliseconds. */
  lemma NonNegativeSpanComponents(span: TimeSpan)
    requires span.ticks >= 0
    ensures 0 <= span.Days()
    ensures 0 <= span.Hours() < 24 && 0 <= span.Minutes() < 60 && 0 <= span.Seconds() < 60
    ensures 0 <= span.Milliseconds() < 1000
    ensures span.Days() * TicksPerDay + span.Hours() * TicksPerHour
      + span.Minutes() * TicksPerMinute + span.Seconds() * TicksPerSecond
      + span.Milliseconds() * TicksPerMillisecond
      == span.ticks - span.ticks % TicksPerMillisecond
  {
    var t := span.ticks;
    var ms := t / TicksPerMillisecond;
    var sec := t / TicksPerSecond;
    var min := t / TicksPerMinute;
    var hr := t / TicksPerHour;
    assert sec == ms / 1000 && min == sec / 60 && hr == min / 60 && span.Days() == hr / 24;
    assert t == ms * TicksPerMillisecond + t % TicksPerMillisecond;
    assert ms == sec * 1000 + ms % 1000;
    assert sec == min * 60 + sec % 60;
    assert min == hr * 60 + min % 60;
    assert hr == span.Days() * 24 + hr % 24;
  }
}
