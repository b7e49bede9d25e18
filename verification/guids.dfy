/** `Convert.ToGuid[OrNull]`. */
module Guids {
  import opened Wrappers
  import opened Platform
  import opened Strings
  import opened Text

  /** `ToGuidOrNull`: `Guid.TryParse` of the normalised text, so a null argument is read as
      the empty text and padding is never seen by the parser. */
  function ToGuidOrNull(p: Primitives, input: Input): (r: Option<Guid>)
    ensures input.Null? ==> r == p.parseGuid("")
    ensures input.Str? && input.s != [] && !IsWhiteSpace(input.s[0]) && !IsWhiteSpace(input.s[|input.s| - 1]) ==>
      r == p.parseGuid(input.s)
  {
    p.parseGuid(SafeString(input))
  }

  /** `ToGuid`: `ToGuidOrNull(input) ?? Guid.Empty`. */
  function ToGuid(p: Primitives, input: Input): (r: Guid)
    ensures ToGuidOrNull(p, input) == Some(r) || (ToGuidOrNull(p, input).None? && r == GuidEmpty)
    ensures r != GuidEmpty ==> p.parseGuid(SafeString(input)) == Some(r)
  {
    ToGuidOrNull(p, input).GetOr(GuidEmpty)
  }
}
