# Util.Convert coercion core, in Dafny

This project models the "try-convert-or-null" part of the static class `Util.Convert`
(`src/Util.Framework4.5/Convert.cs`) and proves properties of that model. Every `ToXOrNull`
takes an untyped argument, normalises it with `SafeString` (null becomes `""`, anything else
its trimmed `ToString()`), and hands the text to a platform parser. It gives null when the
parse fails. Each `ToX` is the nullable form with a zero value substituted. Around that
pattern sit:

- the integer fallback chains (`int` through `double`, `long` through `decimal`);
- the bilingual boolean token table;
- the Chinese-labelled duration rendering;
- the date-format wrapper;
- the generic dispatcher `To<T>` and the comma-separated list builders.

## Layout

| file | module | contents |
|---|---|---|
| wrappers.dfy | `Wrappers` | `Option`, and `Result` for the exceptions that escape: `ArgumentOutOfRangeException` from `Math.Round`, and what `DateTime.ToString(pattern)` throws |
| text.dfy | `Text` | .NET white space, trimming, ASCII lower-casing, `String.Split(char)` with its `Join` inverse, decimal digits |
| platform.dfy | `Platform` | runtime types (`DateTime`, `Guid`, `TimeSpan`, IEEE doubles), the abstract parsers in `Primitives`, `Convert.ToInt32(double)`, `Convert.ToInt64(decimal)`, truncating division |
| strings.dfy | `Strings` | the untyped argument `Input`, `SafeString`, `IsEmpty` |
| numbers.dfy | `Numbers` | `ToFloat`/`ToDouble`/`ToDecimal[OrNull]`, `ToInt[OrNull]`, `ToLong[OrNull]` |
| booleans.dfy | `Booleans` | `GetBool`, `bool.TryParse`, `ToBool[OrNull]` |
| dates.dfy | `Dates` | `ToDate[OrNull]`, both `ToDateTimeString` overloads |
| durations.dfy | `Durations` | `ToTimeSpanString`, and a reader for its composite output |
| guids.dfy | `Guids` | `ToGuid[OrNull]` |
| generic.dfy | `Generic` | `To<T>` with its branch dispatch |
| lists.dfy | `Lists` | `ToList<T>`, both `ToGuidList` overloads |
| coercion.dfy | `Coercion` | properties shared by all the coercions |

The platform parsers are abstract. They are fields of a `Primitives` value that every
operation takes as a parameter. The fields are:

- `int.TryParse`, `long.TryParse`, `float.TryParse`, `double.TryParse`, `decimal.TryParse`;
- `Math.Round` on `double` and `decimal`, and the `(float)` cast;
- `DateTime.TryParse`, `DateTime.ToString(pattern)`, `Enum.GetDescription`;
- the composite formatting of `TimeSpan` totals;
- `Guid.TryParse` and `new Guid(string)`.

The parsers, `new Guid(string)` and `DateTime.ToString(pattern)` return `None` where the
runtime's call fails or throws. `Enum.GetDescription` returns `None` for a null description.
The other fields are total:

- `Math.Round` throws only for a bad digit count, which the model checks before calling it;
- the `(float)` cast of a `double` and the composite formatting of a total do not throw.

The predicate
`WellFormed` records the one range fact the proofs need: the `int` and `long` parsers return
values in range.

`Convert.ToInt32(double)` and `Convert.ToInt64(decimal)` are not abstract.
`Convert.ToInt32(double)` is written out as the .NET runtime defines it: range-check, then
truncate, then step away from zero past a half, or at a half with an odd quotient. A
lemma shows the result equals round-half-to-even followed by a range check.
`Convert.ToInt64(decimal)` is written directly as round-half-to-even followed by the `long`
range check. The source passes a `double?` and a `decimal?`, so C# binds the
`Convert.ToInt32(object)` and `Convert.ToInt64(object)` overloads. For a non-null value these
go through `IConvertible` to the `double` and `decimal` overloads, so the behaviour is the one
modelled. `TimeSpan` is its tick count. Its components use C#'s truncating `/` and `%`.

`To<T>` sees its target through a `TargetType<T>` value. That value carries:

- the type's name and whether it is an enum;
- `default(T)`;
- the runtime conversions each branch calls, each one partial.

`default(string)` is null, so the `string` target has element type `Option<string>`.

## Model

| member | source | states |
|---|---|---|
| Strings.SafeString | src/Util.Framework4.5/Convert.cs:20-23 | null gives `""`. Otherwise the result has no white space at either end. It is empty exactly when the text is all white space. |
| Strings.SafeStringIsInfix | src/Util.Framework4.5/Convert.cs:20-23 | the normalised text is a contiguous slice of the argument's text with only white space removed on either side |
| Strings.SafeStringIdempotent | src/Util.Framework4.5/Convert.cs:20-23 | normalising twice equals normalising once |
| Strings.SafeStringOfTrimmed | src/Util.Framework4.5/Convert.cs:20-23 | text without white space at its ends is its own normalised form |
| Strings.SafeStringOfPadded | src/Util.Framework4.5/Convert.cs:20-23 | one space on each side of a trimmed text is removed |
| Strings.IsEmpty | src/Util.Framework4.5/Convert.cs:29-32 | `IsNullOrWhiteSpace` holds exactly when the string's normalised text is empty, and always for null |
| Dates.ToDateTimeString | src/Util.Framework4.5/Convert.cs:117-124 | a null or blank pattern from the format's description gives `""` for every date, without calling the renderer. Otherwise the date is rendered with that pattern, and the call throws exactly when the renderer throws. |
| Dates.ToNullableDateTimeString | src/Util.Framework4.5/Convert.cs:132-138 | a null date gives `""` and never throws. A present date gives what the non-nullable overload gives, exception included. |
| Dates.NullDateIgnoresCatalog | src/Util.Framework4.5/Convert.cs:132-138 | a null date gives `""` whatever the pattern catalogue and renderer are |
| Dates.SamePatternSameText | src/Util.Framework4.5/Convert.cs:117-124 | the format matters only through its pattern |
| Durations.ToTimeSpanString | src/Util.Framework4.5/Convert.cs:162-191 | a single-unit format gives the total followed by its label. Under `TotalAll` the text is empty exactly when no component is positive, and reading it back yields the positive components (others as 0) in day, hour, minute, second, millisecond order. The reader accepts numbers only without a leading zero, so with `Durations.TimeSpanStringIsOnlyReading` this fixes the text: no segment for a zero component. |
| Durations.ParseFromIsCanonical | src/Util.Framework4.5/Convert.cs:177-188 | every text the reader accepts is exactly the rendering of what it reads: no `0<label>` segment and no padded number is accepted |
| Durations.TimeSpanStringIsOnlyReading | src/Util.Framework4.5/Convert.cs:177-188 | the `TotalAll` text is the only text that reads back as the span's positive components, so a component appears exactly when it is positive |
| Durations.ParseRenderFrom | src/Util.Framework4.5/Convert.cs:177-188 | the label-separated segments read back to the components they were rendered from: segments are unambiguous without a separator |
| Durations.RenderFromEmpty | src/Util.Framework4.5/Convert.cs:177-188 | the composite text is empty exactly when every component is at most 0 |
| Durations.TimeSpanStringDeterminesSpan | src/Util.Framework4.5/Convert.cs:177-188 | for a non-negative span, the components read back add up to the span's ticks rounded down to whole milliseconds |
| Durations.NegativeSpanRendersEmpty | src/Util.Framework4.5/Convert.cs:177-188 | a negative span renders `""` under `TotalAll` |
| Durations.OneDayFiveMinutes | src/Util.Framework4.5/Convert.cs:177-188 | one day and five minutes renders `1天5分`, with zero components omitted |
| Platform.NonNegativeSpanComponents | src/Util.Framework4.5/Convert.cs:178-187 | a non-negative span's hours, minutes, seconds and milliseconds are within their ranges. The components recompose the span to the millisecond. |
| Platform.NegativeSpanComponents | src/Util.Framework4.5/Convert.cs:178-187 | a negative span has no positive component, because C# division truncates toward zero |
| Numbers.ToInt | src/Util.Framework4.5/Convert.cs:202-205 | the nullable result with null replaced by 0. It lies in `int` range when the parsers do. |
| Numbers.ToIntOrNull | src/Util.Framework4.5/Convert.cs:211-227 | a successful strict `int` parse is returned unchanged. Otherwise there is a result exactly when the text parses as a `double` whose 0-digit rounding is finite and fits in `int` after round-half-even. The result is the round-half-to-even of that rounding (within 0.5 of it, the even neighbour at a tie), and in `int` range. |
| Platform.ConvertToInt32 | src/Util.Framework4.5/Convert.cs:221 | `Convert.ToInt32(double)` fails on NaN and the infinities. A result is in `int` range and within 0.5 of the value. Every finite value from -2147483648.5 up to, but not including, 2147483647.5 converts. |
| Platform.ConvertToInt32IsRoundHalfEven | src/Util.Framework4.5/Convert.cs:221 | `Convert.ToInt32(double)` succeeds exactly on finite values whose round-half-to-even fits in `int`, and returns that rounding |
| Platform.ConvertToInt32OfIntegral | src/Util.Framework4.5/Convert.cs:221 | an integral `double` in range narrows to itself |
| Numbers.ConvertToInt32Samples | src/Util.Framework4.5/Convert.cs:221 | 2.5 gives 2, 3.5 gives 4 and -2.5 gives -2 (ties to even). 2147483647.5, NaN and infinity overflow. |
| Platform.ConvertToInt64 | src/Util.Framework4.5/Convert.cs:252 | `Convert.ToInt64(decimal)` succeeds exactly when the round-half-even of the value fits in `long`. The result is within 0.5 of the value, and even when the value lies halfway between two integers. |
| Platform.RoundHalfEven | src/Util.Framework4.5/Convert.cs:252 | the nearest integer, and at a tie the even one |
| Platform.RoundHalfEvenUnique | src/Util.Framework4.5/Convert.cs:252 | no other integer is within 0.5 of the value and even at a tie, so the narrowing contracts fix the result |
| Numbers.FallbackAcceptsIntegralDouble | src/Util.Framework4.5/Convert.cs:211-227 | when the strict parse fails, text read as an integral in-range `double` gives that integer |
| Numbers.DecimalLookingTextFallsBack | src/Util.Framework4.5/Convert.cs:211-227 | `"12.0"` is rejected by `int.TryParse` and accepted through the `double` fallback as 12 |
| Numbers.UnparseableTextIsNull | src/Util.Framework4.5/Convert.cs:211-258 | text no parser accepts gives null, and 0 from the convenience forms, never an exception |
| Numbers.IntegerChainsNeverThrow | src/Util.Framework4.5/Convert.cs:217-252 | the guarded `Math.Round` with 0 digits in both chains cannot throw |
| Numbers.ToLong | src/Util.Framework4.5/Convert.cs:233-236 | the nullable result with null replaced by 0. It lies in `long` range when the parsers do. |
| Numbers.ToLongOrNull | src/Util.Framework4.5/Convert.cs:242-258 | a successful strict `long` parse is returned unchanged. Otherwise there is a result exactly when the text parses as a `decimal` whose round-half-even fits in `long`. The result is the round-half-to-even of the 0-digit rounding, so a tie goes to the even neighbour, and it is in `long` range. |
| Numbers.ToFloat | src/Util.Framework4.5/Convert.cs:265-268 | fails exactly when the nullable form throws. Otherwise it is the nullable value with null replaced by 0. |
| Numbers.ToFloatOrNull | src/Util.Framework4.5/Convert.cs:275-283 | null exactly when `float.TryParse` fails, whatever the digit count. A bad digit count after a successful parse throws. Without a digit count the parsed value is returned. |
| Numbers.ToDouble | src/Util.Framework4.5/Convert.cs:290-293 | fails exactly when the nullable form throws. Otherwise it is the nullable value with null replaced by 0. |
| Numbers.ToDoubleOrNull | src/Util.Framework4.5/Convert.cs:300-308 | null exactly when `double.TryParse` fails. It throws exactly for a parsed value with a digit count outside 0..15. Without a digit count the parsed value is returned. |
| Numbers.ToDecimal | src/Util.Framework4.5/Convert.cs:315-318 | fails exactly when the nullable form throws. Otherwise it is the nullable value with null replaced by 0. |
| Numbers.ToDecimalOrNull | src/Util.Framework4.5/Convert.cs:325-333 | null exactly when `decimal.TryParse` fails. It throws exactly for a parsed value with a digit count outside 0..28. Without a digit count the parsed value is returned. |
| Numbers.OrZero | src/Util.Framework4.5/Convert.cs:267 | `?? 0` keeps a present value, substitutes the zero for null, and passes an exception through |
| Booleans.ToBool | src/Util.Framework4.5/Convert.cs:341-344 | true exactly when the nullable form is true |
| Booleans.ToBoolOrNull | src/Util.Framework4.5/Convert.cs:350-356 | true exactly when the lower-cased normalised text is a true token, or strips to `true`. False exactly when it is a false token, or strips to `false`. |
| Booleans.TableOrderIrrelevant | src/Util.Framework4.5/Convert.cs:350-356 | consulting the token table before or after `bool.TryParse` gives the same answer |
| Booleans.TokensAreNotBoolLiterals | src/Util.Framework4.5/Convert.cs:350-386 | `bool.TryParse` rejects every table token, in any case |
| Booleans.TokenCharsPlain | src/Util.Framework4.5/Convert.cs:363-383 | no token contains white space or NUL, and none is `true` or `false` |
| Booleans.ParseBool | src/Util.Framework4.5/Convert.cs:355 | the exact case-insensitive comparison with `true`/`false` decides first. Every accepted text is `true` or `false` once white space and NUL are stripped and it is lower-cased. |
| Booleans.ParseBoolIsTrimmedCompare | src/Util.Framework4.5/Convert.cs:355 | `bool.TryParse` accepts exactly the texts that lower-case to `true`/`false` after stripping white space and NUL |
| Booleans.NoDroppedEnds | src/Util.Framework4.5/Convert.cs:355 | a text that lower-cases to `true` or `false` has nothing to strip |
| Booleans.LiteralValue | src/Util.Framework4.5/Convert.cs:355 | true exactly for `true`, false exactly for `false` |
| Booleans.GetBool | src/Util.Framework4.5/Convert.cs:361-386 | null exactly for texts outside the table, true exactly for `1`, `是`, `ok`, `yes`, false exactly for `0`, `否`, `不`, `no`, `fail` |
| Booleans.TokenValue | src/Util.Framework4.5/Convert.cs:363-385 | the `switch` answers false exactly on the false tokens and true exactly on the true tokens |
| Booleans.UpperCaseTokenSample | src/Util.Framework4.5/Convert.cs:350-386 | `" YES "` is true: case and padding are ignored |
| Booleans.ChineseTokenSample | src/Util.Framework4.5/Convert.cs:350-386 | `否` is false, as `no` is |
| Booleans.TokenDecides | src/Util.Framework4.5/Convert.cs:350-356 | a table token is answered by the table, whatever `bool.TryParse` would say |
| Booleans.LiteralDecides | src/Util.Framework4.5/Convert.cs:350-356 | a text outside the table that lower-cases to `true` is true, through `bool.TryParse` |
| Booleans.LiteralSample | src/Util.Framework4.5/Convert.cs:350-356 | `True` is true through `bool.TryParse` after the table declines it |
| Dates.ToDate | src/Util.Framework4.5/Convert.cs:394-397 | the parsed date, or `DateTime.MinValue` when parsing fails. Any other result came from the parser. |
| Dates.ToDateOrNull | src/Util.Framework4.5/Convert.cs:403-406 | null is parsed as `""`, and already-trimmed text reaches the parser unchanged |
| Guids.ToGuid | src/Util.Framework4.5/Convert.cs:415-418 | the parsed `Guid`, or `Guid.Empty` when parsing fails. Any other result came from the parser. |
| Guids.ToGuidOrNull | src/Util.Framework4.5/Convert.cs:424-427 | null is parsed as `""`, and already-trimmed text reaches the parser unchanged |
| Lists.ToGuidList | src/Util.Framework4.5/Convert.cs:433-436 | empty for null or blank input. Otherwise one `Guid` per non-blank comma segment, in order: the constructor's result on the untrimmed segment, or `Guid.Empty` when it throws. |
| Lists.GuidSegmentsUseConstructor | src/Util.Framework4.5/Convert.cs:433-436 | converting a non-blank segment to `Guid` is the constructor, with `Guid.Empty` on failure |
| Lists.DelimitedGuidListKeepsUnparseable | src/Util.Framework4.5/Convert.cs:433-436 | a rejected segment stays in the list as `Guid.Empty` at its own position, so the list is exactly as long as the segments |
| Lists.ToGuidListOf | src/Util.Framework4.5/Convert.cs:442-447 | empty for null. Otherwise exactly as long as the input, each element the parse of its normalised text, or `Guid.Empty` where that parse fails. |
| Lists.GuidListOfKeepsUnparseable | src/Util.Framework4.5/Convert.cs:442-447 | an unparseable element becomes `Guid.Empty` at its own position |
| Lists.ToList | src/Util.Framework4.5/Convert.cs:456-464 | empty for null or blank input. Otherwise one element per non-blank comma segment, in order, each the `To<T>` of that segment. |
| Lists.ConvertSegments | src/Util.Framework4.5/Convert.cs:462 | the filtered query has as many elements as non-blank segments, each converted in place |
| Lists.NonBlank | src/Util.Framework4.5/Convert.cs:462 | the filter keeps only non-blank segments, drawn from the input |
| Lists.NonBlankAppend | src/Util.Framework4.5/Convert.cs:462 | the filter distributes over concatenation, so it keeps relative order |
| Lists.NonBlankOfNonBlank | src/Util.Framework4.5/Convert.cs:462 | the filter keeps everything when nothing is blank |
| Lists.ToListOfJoin | src/Util.Framework4.5/Convert.cs:456-464 | for non-blank comma-free texts, `ToList` of their comma-join converts each text in place |
| Lists.ToListSample | src/Util.Framework4.5/Convert.cs:456-464 | `1,,2, 3` converts `1`, `2` and ` 3`, with the padding kept |
| Lists.ToStringListKeepsSegments | src/Util.Framework4.5/Convert.cs:456-464 | a `string` list never holds null and keeps each segment untrimmed |
| Text.Split | src/Util.Framework4.5/Convert.cs:461 | one more part than separators, none containing the separator, joining back to the input |
| Text.SplitJoin | src/Util.Framework4.5/Convert.cs:461 | splitting a join of separator-free parts gives the parts back |
| Text.SplitUnique | src/Util.Framework4.5/Convert.cs:461 | a text has only one split into separator-free parts |
| Generic.To | src/Util.Framework4.5/Convert.cs:471-495 | null or a blank string gives `default(T)`. Otherwise the chosen branch's result, or `default(T)` when that branch throws. |
| Generic.BranchOf | src/Util.Framework4.5/Convert.cs:477-489 | the lower-cased type name `string` picks the text branch and `guid` the `Guid` branch. Otherwise an enum type is parsed, an `IConvertible` input goes through `ChangeType`, and anything else is cast. |
| Generic.Attempt | src/Util.Framework4.5/Convert.cs:481-489 | each branch calls exactly its runtime conversion. The text and `Guid` branches get the untrimmed `ToString()`, and the `Guid` branch fails when the constructor throws. |
| Generic.BoxedValueIsMoreThanText | src/Util.Framework4.5/Convert.cs:487-488 | two boxed values with the same text can convert differently: through `ChangeType` to `int`, the `char` '5' gives 53 and the `int` 5 gives 5 |
| Generic.ToStringKeepsRawText | src/Util.Framework4.5/Convert.cs:471-482 | to `string`, every input other than null or a blank string gives its untrimmed `ToString()`. Those two give null. |
| Generic.ToGuidUsesConstructor | src/Util.Framework4.5/Convert.cs:471-484 | to `Guid`, a non-blank string goes to the constructor untrimmed, and a rejected one gives `Guid.Empty` |
| Generic.TypeNameCaseInsensitive | src/Util.Framework4.5/Convert.cs:477-482 | the branch depends on the type name only up to case |
| Generic.EnumBeforeChangeType | src/Util.Framework4.5/Convert.cs:485-488 | for an enum target, `Enum.Parse` is used even for an `IConvertible` input |
| Generic.NonConvertibleIsCast | src/Util.Framework4.5/Convert.cs:487-489 | a non-`IConvertible` input to a plain type goes to the direct cast |
| Coercion.NormalisedTextDecides | src/Util.Framework4.5/Convert.cs:211-427 | arguments with equal normalised text convert alike under every nullable coercion |
| Coercion.IntDecided | src/Util.Framework4.5/Convert.cs:211-227 | the nullable `int` coercion depends on its argument only through the normalised text |
| Coercion.LongDecided | src/Util.Framework4.5/Convert.cs:242-258 | the nullable `long` coercion depends on its argument only through the normalised text |
| Coercion.BoolDecided | src/Util.Framework4.5/Convert.cs:350-386 | the nullable `bool` coercion depends on its argument only through the normalised text |
| Coercion.PaddingIsIgnored | src/Util.Framework4.5/Convert.cs:211-427 | one space on each side of a trimmed text never changes the `int`, `bool` or `Guid` coercion |
| Coercion.StringTargetSeesPadding | src/Util.Framework4.5/Convert.cs:471-482 | `To<string>` is the exception: a padded text and the text itself normalise alike but convert differently |

## Behaviour worth knowing

- The delimited `ToGuidList` does not drop segments that do not parse. It
  converts each segment with `To<Guid>`, which catches the constructor's exception and returns
  `Guid.Empty`. The list therefore has exactly one element per non-blank segment (see
  `Lists.DelimitedGuidListKeepsUnparseable`).
- Halves are not rounded away from zero. `Math.Round(x, d)` and
  `Convert.ToInt32`/`ToInt64` round halves to even.
- The token table is consulted before `bool.TryParse`. The two accept disjoint texts, so the
  order never changes an answer (`Booleans.TableOrderIrrelevant`).

## Left out

- Platform parsers and renderers are abstract functions. Their culture-dependent behaviour is
  not modelled: number, date and `Guid` syntax, `DateTime.ToString(pattern)`, and the
  composite formatting of `double` totals.
- Floating-point arithmetic: `double` and `float` values are `Ieee` tags over reals. `Math.Round` and the
  `(float)` cast are abstract, apart from the digit range they accept.
- `ToLower` is modelled as ASCII lower-casing. Culture case rules and non-ASCII case folding
  are out of scope.
- Booleans.ToBoolOrNull: the token table is matched after ASCII lower-casing, so two
  culture-dependent cases differ from the runtime. Under a Turkish culture `"FAIL".ToLower()`
  is `"faıl"` with a dotless i, so the runtime gives null where the model gives false.
  `"OK"` written with the Kelvin sign (U+212A) lower-cases to `ok` in .NET, so the runtime
  gives true where the model gives null.
- `bool.TryParse` compares its input with "True" and "False" ignoring case. The model
  lower-cases with the same ASCII `Lower`, so non-ASCII characters that case-fold to
  ASCII letters are not recognised: `falſe`, with the long s, is false in the runtime and null
  in the model.
- White space follows `Char.IsWhiteSpace` for current Unicode, which no longer includes U+180E.
  Characters are Unicode scalar values, not UTF-16 code units, so unpaired surrogates are
  not represented.
- A boxed argument whose `ToString()` returns null is not represented. `Boxed` always carries
  a text.
- A boxed argument's runtime type and value are an opaque `identity`. The `Enum.Parse`,
  `ChangeType` and cast conversions of a `TargetType` may read it, but the model does not say
  how (see `Generic.BoxedValueIsMoreThanText`).
- `Common.GetType<T>` is not part of this model. It lives in a file outside the core, and
  `TargetType` takes its name and enum flag as given.
- `Enum.GetDescription` is not part of this model either. The description lookup is the
  abstract `describeDate`, so the `CommonDateFormat` pattern strings are not modelled.
- Enum values outside the declared `CommonDateFormat` and `CommonTimeSpanFormat` members are
  not modelled. The model's enums are closed.
- Default parameter values are not modelled. Callers pass every argument, so a missing
  `digits` is `None` and the format is explicit.
- `ToBytes` is left out because it depends on a text encoder. `RemoveEnd` is left out
  because it delegates to a helper outside the core.
- There is no round trip from a formatted date back to the date, because both directions
  are abstract culture-dependent calls.
- `Durations.ToTimeSpanString`: for the five single-unit formats, only the appended label
  is stated. The floating-point total itself comes from the abstract renderer.
