/** Properties shared by the coercions: every nullable conversion reads its argument only
    through `SafeString`, while `To<string>` keeps the raw text. */
module Coercion {
  import opened Wrappers
  import opened Text
  import opened Platform
  import opened Strings
  import opened Numbers
  import opened Booleans
  import opened Dates
  import opened Guids
  import opened Generic

  /** Two arguments with the same normalised text convert alike under every nullable
      coercion: padding, or the difference between a string and a boxed value with the same
      text, is invisible to them. */
  lemma NormalisedTextDecides(p: Primitives, a: Input, b: Input)
    requires SafeString(a) == SafeString(b)
    ensures ToIntOrNull(p, a) == ToIntOrNull(p, b)
    ensures ToLongOrNull(p, a) == ToLongOrNull(p, b)
    ensures ToBoolOrNull(a) == ToBoolOrNull(b)
    ensures ToDateOrNull(p, a) == ToDateOrNull(p, b)
    ensures ToGuidOrNull(p, a) == ToGuidOrNull(p, b)
  {
    IntegersDecided(p, a, b);
    OthersDecided(p, a, b);
  }

  lemma IntegersDecided(p: Primitives, a: Input, b: Input)
    requires SafeString(a) == SafeString(b)
    ensures ToIntOrNull(p, a) == ToIntOrNull(p, b)
    ensures ToLongOrNull(p, a) == ToLongOrNull(p, b)
  {
    IntDecided(p, a, b);
    LongDecided(p, a, b);
  }

  lemma IntDecided(p: Primitives, a: Input, b: Input)
    requires SafeString(a) == SafeString(b)
    ensures ToIntOrNull(p, a) == ToIntOrNull(p, b)
  {
    var t := SafeString(a);
    match p.parseInt32(t) {
      case Some(n) =>
        assert ToIntOrNull(p, a) == Some(n) == ToIntOrNull(p, b);
      case None =>
        var d := ToDoubleOrNull(p, a, Some(0));
        assert d == ToDoubleOrNull(p, b, Some(0));
        match d {
          case Ok(Some(x)) =>
            assert ToIntOrNull(p, a) == ConvertToInt32(x) == ToIntOrNull(p, b);
          case Ok(None) =>
            assert ToIntOrNull(p, a) == None == ToIntOrNull(p, b);
          case Err(_) =>
            assert false;
        }
    }
  }

  lemma LongDecided(p: Primitives, a: Input, b: Input)
    requires SafeString(a) == SafeString(b)
    ensures ToLongOrNull(p, a) == ToLongOrNull(p, b)
  {
    var t := SafeString(a);
    match p.parseInt64(t) {
      case Some(n) =>
        assert ToLongOrNull(p, a) == Some(n) == ToLongOrNull(p, b);
      case None =>
        var d := ToDecimalOrNull(p, a, Some(0));
        assert d == ToDecimalOrNull(p, b, Some(0));
        match d {
          case Ok(Some(x)) =>
            assert ToLongOrNull(p, a) == ConvertToInt64(x) == ToLongOrNull(p, b);
          case Ok(None) =>
            assert ToLongOrNull(p, a) == None == ToLongOrNull(p, b);
          case Err(_) =>
            assert false;
        }
    }
  }

  lemma OthersDecided(p: Primitives, a: Input, b: Input)
    requires SafeString(a) == SafeString(b)
    ensures ToBoolOrNull(a) == ToBoolOrNull(b)
    ensures ToDateOrNull(p, a) == ToDateOrNull(p, b)
    ensures ToGuidOrNull(p, a) == ToGuidOrNull(p, b)
  {
    BoolDecided(a, b);
    assert ToDateOrNull(p, a) == p.parseDate(SafeString(a));
    assert ToGuidOrNull(p, a) == p.parseGuid(SafeString(a));
  }

  lemma BoolDecided(a: Input, b: Input)
    requires SafeString(a) == SafeString(b)
    ensures ToBoolOrNull(a) == ToBoolOrNull(b)
  {
    assert GetBool(a) == GetBool(b) by {
      assert Lower(SafeString(a)) == Lower(SafeString(b));
    }
    assert ParseBool(SafeString(a)) == ParseBool(SafeString(b));
  }

  /** Padding a trimmed text never changes a nullable coercion's answer. */
  lemma PaddingIsIgnored(p: Primitives, s: string)
    requires s != [] && !IsWhiteSpace(s[0]) && !IsWhiteSpace(s[|s| - 1])
    ensures ToIntOrNull(p, Str(" " + s + " ")) == ToIntOrNull(p, Str(s))
    ensures ToBoolOrNull(Str(" " + s + " ")) == ToBoolOrNull(Str(s))
    ensures ToGuidOrNull(p, Str(" " + s + " ")) == ToGuidOrNull(p, Str(s))
  {
    SafeStringOfPadded(s);
    NormalisedTextDecides(p, Str(" " + s + " "), Str(s));
  }

  /** `To<string>` is not decided by the normalised text: a padded text and the text itself
      normalise alike but come back different. */
  lemma StringTargetSeesPadding(p: Primitives, s: string)
    requires s != [] && !IsWhiteSpace(s[0]) && !IsWhiteSpace(s[|s| - 1])
    ensures SafeString(Str(" " + s + " ")) == SafeString(Str(s))
    ensures To(p, StringTarget(), Str(" " + s + " ")) != To(p, StringTarget(), Str(s))
  {
    SafeStringOfPadded(s);
    SafeStringOfTrimmed(s);
    ToStringKeepsRawText(p, Str(" " + s + " "));
    ToStringKeepsRawText(p, Str(s));
    assert |s| < |" " + s + " "|;
  }
}
