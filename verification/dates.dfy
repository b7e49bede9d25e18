/** `Convert.ToDate[OrNull]` and the two `Convert.ToDateTimeString` overloads. */
module Dates {
  import opened Wrappers
  import opened Platform
  import opened Strings
  import opened Text

  /** `ToDateOrNull`: `DateTime.TryParse` of the normalised text, so a null argument is read
      as the empty text and padding is never seen by the parser. */
  function ToDateOrNull(p: Primitives, input: Input): (r: Option<DateTime>)
    ensures input.Null? ==> r == p.parseDate("")
    ensures input.Str? && input.s != [] && !IsWhiteSpace(input.s[0]) && !IsWhiteSpace(input.s[|input.s| - 1]) ==>
      r == p.parseDate(input.s)
  {
    p.parseDate(SafeString(input))
  }

  /** `ToDate`: `ToDateOrNull(input) ?? DateTime.MinValue`. */
  function ToDate(p: Primitives, input: Input): (r: DateTime)
    ensures ToDateOrNull(p, input) == Some(r) || (ToDateOrNull(p, input).None? && r == DateTimeMinValue)
    ensures r != DateTimeMinValue ==> p.parseDate(SafeString(input)) == Some(r)
  {
    ToDateOrNull(p, input).GetOr(DateTimeMinValue)
  }

  /** `ToDateTimeString(DateTime, CommonDateFormat)`: looks up the format's pattern; a null
      or blank pattern gives the empty string, otherwise the date rendered with it. Nothing
      is caught, so a renderer that throws lets its exception escape. */
  function ToDateTimeString(p: Primitives, dateTime: DateTime, format: CommonDateFormat): (r: Result<string>)
    ensures IsEmpty(p.describeDate(format)) ==> r == Ok("")
    ensures !IsEmpty(p.describeDate(format)) ==>
      (r.Ok? <==> p.formatDate(dateTime, p.describeDate(format).value).Some?)
    ensures !IsEmpty(p.describeDate(format)) && r.Ok? ==>
      r.value == p.formatDate(dateTime, p.describeDate(format).value).value
  {
    var pattern := p.describeDate(format);
    if IsEmpty(pattern) then Ok("")
    else
      match p.formatDate(dateTime, pattern.value)
      case Some(text) => Ok(text)
      case None => Err(DateFormatFailure)
  }

  /** `ToDateTimeString(DateTime?, CommonDateFormat)`: the empty string for a null date,
      otherwise the non-nullable overload. */
  function ToNullableDateTimeString(p: Primitives, dateTime: Option<DateTime>, format: CommonDateFormat): (r: Result<string>)
    ensures dateTime.None? ==> r == Ok("")
    ensures dateTime.Some? ==> r == ToDateTimeString(p, dateTime.value, format)
  {
    if dateTime.Some? then ToDateTimeString(p, dateTime.value, format) else Ok("")
  }

  /** A null date renders as the empty string whatever the pattern catalogue and renderer
      are: neither is consulted. */
  lemma NullDateIgnoresCatalog(p: Primitives, q: Primitives, format: CommonDateFormat)
    ensures ToNullableDateTimeString(p, None, format) == ToNullableDateTimeString(q, None, format) == Ok("")
  {
  }

  /** The rendering depends on the format only through its pattern: two formats whose
      patterns agree render every date identically. */
  lemma SamePatternSameText(p: Primitives, d: DateTime, f: CommonDateFormat, g: CommonDateFormat)
    requires p.describeDate(f) == p.describeDate(g)
    ensures ToDateTimeString(p, d, f) == ToDateTimeString(p, d, g)
  {
  }
}
