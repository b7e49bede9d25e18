/** `Convert.ToBool[OrNull]`: a bilingual token table consulted before `bool.TryParse`. */
module Booleans {
  import opened Wrappers
  import opened Text
  import opened Strings

  /** Lower-cased normalised texts that `GetBool` reads as false ("否" and "不" are the
      Chinese for "no" and "not"). */
  const FalseTokens: set<string> := {"0", "否", "不", "no", "fail"}

  /** Lower-cased normalised texts that `GetBool` reads as true ("是" is the Chinese for "yes"). */
  const TrueTokens: set<string> := {"1", "是", "ok", "yes"}

  /** `Convert.GetBool`: the token table applied to the lower-cased normalised text. It
      answers exactly for the texts in the table: true for the true tokens, false for the
      false tokens, null for everything else. */
  function GetBool(input: Input): (r: Option<bool>)
    ensures r.None? <==> Lower(SafeString(input)) !in FalseTokens + TrueTokens
    ensures r == Some(true) <==> Lower(SafeString(input)) in TrueTokens
    ensures r == Some(false) <==> Lower(SafeString(input)) in FalseTokens
  {
    TokenValue(Lower(SafeString(input)))
  }

  /** The `switch` of `Convert.GetBool` over a lower-cased key. */
  function TokenValue(key: string): (r: Option<bool>)
    ensures r == Some(false) <==> key in FalseTokens
    ensures r == Some(true) <==> key in TrueTokens
  {
    if key == "0" then Some(false)
    else if key == "否" then Some(false)
    else if key == "不" then Some(false)
    else if key == "no" then Some(false)
    else if key == "fail" then Some(false)
    else if key == "1" then Some(true)
    else if key == "是" then Some(true)
    else if key == "ok" then Some(true)
    else if key == "yes" then Some(true)
    else None
  }

  /** The characters `bool.TryParse` strips before its second comparison. */
  predicate IsWhiteSpaceOrNul(c: char) {
    IsWhiteSpace(c) || c == '\0'
  }

  /** "true" and "false", the lower-cased `Boolean.TrueString` and `Boolean.FalseString`. */
  function LiteralValue(key: string): (r: Option<bool>)
    ensures r == Some(true) <==> key == "true"
    ensures r == Some(false) <==> key == "false"
  {
    if key == "true" then Some(true)
    else if key == "false" then Some(false)
    else None
  }

  /** `bool.TryParse` as the runtime writes it: compare with "True" and "False" ignoring
      case; failing that, strip white space and NUL characters from both ends and compare
      again. */
  function ParseBool(s: string): (r: Option<bool>)
    ensures LiteralValue(Lower(s)).Some? ==> r == LiteralValue(Lower(s))
    ensures r.Some? ==> r == LiteralValue(Lower(TrimWhere(s, IsWhiteSpaceOrNul)))
  {
    var exact := LiteralValue(Lower(s));
    if exact.Some? then
      NoDroppedEnds(s);
      exact
    else
      LiteralValue(Lower(TrimWhere(s, IsWhiteSpaceOrNul)))
  }

  /** The first comparison of `bool.TryParse` is subsumed by the second: it accepts exactly
      the texts whose stripped, lower-cased form is "true" or "false". */
  lemma ParseBoolIsTrimmedCompare(s: string)
    ensures ParseBool(s) == LiteralValue(Lower(TrimWhere(s, IsWhiteSpaceOrNul)))
  {
    if LiteralValue(Lower(s)).Some? {
      NoDroppedEnds(s);
    }
  }

  /** A text that lower-cases to "true" or "false" has no white space or NUL at its ends. */
  lemma NoDroppedEnds(s: string)
    requires LiteralValue(Lower(s)).Some?
    ensures TrimWhere(s, IsWhiteSpaceOrNul) == s
  {
    assert LowerChar(s[0]) == Lower(s)[0];
    assert LowerChar(s[|s| - 1]) == Lower(s)[|s| - 1];
    TrimWhereOfTrimmed(s, IsWhiteSpaceOrNul);
  }

  /** `Convert.ToBoolOrNull`: the token table first, then `bool.TryParse` of the normalised
      text; anything else is null. */
  function ToBoolOrNull(input: Input): (r: Option<bool>)
    ensures r == Some(true) <==>
      || Lower(SafeString(input)) in TrueTokens
      || Lower(TrimWhere(SafeString(input), IsWhiteSpaceOrNul)) == "true"
    ensures r == Some(false) <==>
      || Lower(SafeString(input)) in FalseTokens
      || Lower(TrimWhere(SafeString(input), IsWhiteSpaceOrNul)) == "false"
  {
    ParseBoolIsTrimmedCompare(SafeString(input));
    TokensAreNotBoolLiterals(SafeString(input));
    match GetBool(input)
    case Some(b) => Some(b)
    case None => ParseBool(SafeString(input))
  }

  /** `Convert.ToBool`: `ToBoolOrNull(input) ?? false`, so true exactly when the nullable
      form is true. */
  function ToBool(input: Input): (r: bool)
    ensures r <==> ToBoolOrNull(input) == Some(true)
  {
    ToBoolOrNull(input).GetOr(false)
  }

  /** The tokens contain no white space and no NUL, and none is a boolean literal. */
  lemma TokenCharsPlain(key: string)
    requires key in FalseTokens + TrueTokens
    ensures forall i :: 0 <= i < |key| ==> !IsWhiteSpaceOrNul(key[i])
    ensures LiteralValue(key).None?
  {
    if key == "0" {
    } else if key == "否" {
    } else if key == "不" {
    } else if key == "no" {
    } else if key == "fail" {
    } else if key == "1" {
    } else if key == "是" {
    } else if key == "ok" {
    } else {
      assert key == "yes";
    }
  }

  /** No token of the table is accepted by `bool.TryParse`. */
  lemma TokensAreNotBoolLiterals(s: string)
    ensures Lower(s) in FalseTokens + TrueTokens ==> ParseBool(s).None?
  {
    var key := Lower(s);
    if key in FalseTokens + TrueTokens {
      TokenCharsPlain(key);
      forall i | 0 <= i < |s|
        ensures !IsWhiteSpaceOrNul(s[i])
      {
        assert LowerChar(s[i]) == key[i];
      }
      TrimWhereOfTrimmed(s, IsWhiteSpaceOrNul);
    }
  }

  /** Because the table and `bool.TryParse` accept disjoint texts, consulting the table
      first or last gives the same answer. */
  lemma TableOrderIrrelevant(input: Input)
    ensures ToBoolOrNull(input) ==
      match ParseBool(SafeString(input))
      case Some(b) => Some(b)
      case None => GetBool(input)
  {
    TokensAreNotBoolLiterals(SafeString(input));
  }

  /** An argument whose lower-cased normalised text is a table token gets the token's value. */
  lemma TokenDecides(input: Input)
    requires Lower(SafeString(input)) in FalseTokens + TrueTokens
    ensures ToBoolOrNull(input) == TokenValue(Lower(SafeString(input)))
  {
  }

  /** An argument in neither the table nor the literals is null. */
  lemma NeitherIsNull(input: Input)
    requires Lower(SafeString(input)) !in FalseTokens + TrueTokens
    requires Lower(TrimWhere(SafeString(input), IsWhiteSpaceOrNul)) !in {"true", "false"}
    ensures ToBoolOrNull(input) == None
  {
  }

  /** A text with no white space or NUL at its ends that the table does not know is
      decided by its lower-cased form being "true" or "false". */
  lemma LiteralDecides(input: Input)
    requires Lower(SafeString(input)) !in FalseTokens + TrueTokens
    requires TrimWhere(SafeString(input), IsWhiteSpaceOrNul) == SafeString(input)
    requires Lower(SafeString(input)) == "true"
    ensures ToBoolOrNull(input) == Some(true)
  {
  }

  /** "true" and "false" are not table tokens. */
  lemma LiteralsAreNotTokens()
    ensures "true" !in FalseTokens + TrueTokens
    ensures "false" !in FalseTokens + TrueTokens
  {
    assert |"true"| == 4 && |"false"| == 5;
    assert "true"[0] != "fail"[0];
  }

  /** Case and surrounding white space do not matter: " YES " is true. (The sample texts
      here are given by their characters, which keeps the verifier from unrolling the
      trimming functions on a literal.) */
  lemma UpperCaseTokenSample(t: string)
    requires |t| == 3 && t[0] == 'Y' && t[1] == 'E' && t[2] == 'S'
    ensures ToBoolOrNull(Str(" " + t + " ")) == Some(true)
  {
    PaddedYesText(t);
    TokenDecides(Str(" " + t + " "));
  }

  /** " YES " normalises and lower-cases to the true token "yes". */
  lemma PaddedYesText(t: string)
    requires |t| == 3 && t[0] == 'Y' && t[1] == 'E' && t[2] == 'S'
    ensures Lower(SafeString(Str(" " + t + " "))) in TrueTokens
  {
    SafeStringOfPadded(t);
    LowerYes(t);
  }

  lemma LowerYes(t: string)
    requires |t| == 3 && t[0] == 'Y' && t[1] == 'E' && t[2] == 'S'
    ensures Lower(t) in TrueTokens
  {
    assert Lower(t) == "yes" by {
      assert LowerChar(t[0]) == 'y' && LowerChar(t[1]) == 'e' && LowerChar(t[2]) == 's';
    }
  }

  /** A Chinese token behaves like its English equivalent: "否" is false, as "no" is. */
  lemma ChineseTokenSample(t: string, u: string)
    requires |t| == 1 && t[0] == '否'
    requires |u| == 2 && u[0] == 'n' && u[1] == 'o'
    ensures ToBoolOrNull(Str(t)) == Some(false) == ToBoolOrNull(Str(u))
  {
    FalseTokenText(t);
    FalseTokenText(u);
    TokenDecides(Str(t));
    TokenDecides(Str(u));
  }

  /** The texts "否" and "no" normalise and lower-case to false tokens. */
  lemma FalseTokenText(t: string)
    requires (|t| == 1 && t[0] == '否') || (|t| == 2 && t[0] == 'n' && t[1] == 'o')
    ensures Lower(SafeString(Str(t))) in FalseTokens
  {
    assert SafeString(Str(t)) == t by { SafeStringOfTrimmed(t); }
    if |t| == 1 {
      assert Lower(t) == "否" by { assert LowerChar(t[0]) == '否'; }
    } else {
      assert Lower(t) == "no" by { assert LowerChar(t[0]) == 'n' && LowerChar(t[1]) == 'o'; }
    }
  }

  /** The strict parse still applies after the table: "True" is true. */
  lemma LiteralSample(t: string)
    requires |t| == 4 && t[0] == 'T' && t[1] == 'r' && t[2] == 'u' && t[3] == 'e'
    ensures ToBoolOrNull(Str(t)) == Some(true)
  {
    TrueText(t);
    LiteralsAreNotTokens();
    LiteralDecides(Str(t));
  }

  /** "True" is its own normalised and stripped form, and lower-cases to "true". */
  lemma TrueText(t: string)
    requires |t| == 4 && t[0] == 'T' && t[1] == 'r' && t[2] == 'u' && t[3] == 'e'
    ensures SafeString(Str(t)) == t && Lower(t) == "true"
    ensures TrimWhere(t, IsWhiteSpaceOrNul) == t
  {
    SafeStringOfTrimmed(t);
    assert Lower(t) == "true" by {
      assert LowerChar(t[0]) == 't' && LowerChar(t[1]) == 'r';
      assert LowerChar(t[2]) == 'u' && LowerChar(t[3]) == 'e';
    }
    NoDroppedEnds(t);
  }
}
