/** The untyped argument of the conversion functions and its normalised text
    (`Convert.SafeString`, `Convert.IsEmpty`). */
module Strings {
  import opened Wrappers
  import opened Text

  /** An `object` argument: null, a `string`, or some other value. A boxed value is known by
      the text its `ToString()` returns, by whether it implements `IConvertible`, and by an
      opaque `identity` standing for its runtime type and value, which the conversions of
      `To<T>` may read: the `char` '5' and the `int` 5 share a text but not an identity. */
  datatype Input = Null | Str(s: string) | Boxed(text: string, convertible: bool, identity: nat)

  /** `input.ToString()` of a non-null argument; a string is its own text. */
  function ToText(input: Input): string
    requires !input.Null?
  {
    match input
    case Str(s) => s
    case Boxed(t, _, _) => t
  }

  /** A `string` argument, which may be null. */
  function OfString(s: Option<string>): Input {
    match s
    case None => Null
    case Some(t) => Str(t)
  }

  /** `Convert.SafeString`: null becomes the empty string, anything else its text without
      leading or trailing white space. */
  function SafeString(input: Input): (r: string)
    ensures input.Null? ==> r == []
    ensures r == [] || (!IsWhiteSpace(r[0]) && !IsWhiteSpace(r[|r| - 1]))
    ensures r == [] <==> (input.Null? || IsBlank(ToText(input)))
  {
    if input.Null? then "" else Trim(ToText(input))
  }

  /** The normalised text of a non-null argument is a contiguous piece of its text with only
      white space cut away on either side. */
  lemma SafeStringIsInfix(input: Input)
    requires !input.Null?
    ensures exists i, j {:trigger ToText(input)[i..j]} ::
      && 0 <= i <= j <= |ToText(input)|
      && SafeString(input) == ToText(input)[i..j]
      && IsBlank(ToText(input)[..i])
      && IsBlank(ToText(input)[j..])
  {
    TrimWhereIsInfix(ToText(input), IsWhiteSpace);
  }

  /** Text with no white space at either end is its own normalised form. */
  lemma SafeStringOfTrimmed(s: string)
    requires s == [] || (!IsWhiteSpace(s[0]) && !IsWhiteSpace(s[|s| - 1]))
    ensures SafeString(Str(s)) == s
  {
    TrimWhereOfTrimmed(s, IsWhiteSpace);
  }

  /** Surrounding a trimmed text with spaces does not change its normalised form. */
  lemma SafeStringOfPadded(s: string)
    requires s != [] && !IsWhiteSpace(s[0]) && !IsWhiteSpace(s[|s| - 1])
    ensures SafeString(Str(" " + s + " ")) == s
  {
    var padded := " " + s + " ";
    assert padded[1..] == s + " ";
    assert TrimStartWhere(padded, IsWhiteSpace) == TrimStartWhere(s + " ", IsWhiteSpace);
    assert (s + " ")[..|s|] == s;
    assert TrimEndWhere(s + " ", IsWhiteSpace) == TrimEndWhere(s, IsWhiteSpace);
    TrimWhereOfTrimmed(s, IsWhiteSpace);
    assert TrimStartWhere(s + " ", IsWhiteSpace) == s + " ";
    assert TrimStartWhere(s, IsWhiteSpace) == s;
  }

  /** Normalising normalised text changes nothing. */
  lemma SafeStringIdempotent(input: Input)
    ensures SafeString(Str(SafeString(input))) == SafeString(input)
  {
    if !input.Null? {
      TrimIdempotent(ToText(input));
    }
  }

  /** `Convert.IsEmpty`, i.e. `String.IsNullOrWhiteSpace`: the string is null or all white
      space, which is exactly when its normalised text is empty. */
  function IsEmpty(value: Option<string>): (b: bool)
    ensures b <==> SafeString(OfString(value)) == []
    ensures value.None? ==> b
  {
    value.None? || IsBlank(value.value)
  }
}
