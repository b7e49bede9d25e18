/** Character and string primitives of the .NET runtime that the conversion code relies on:
    `Char.IsWhiteSpace`, `String.Trim`, `String.IsNullOrWhiteSpace`, `String.ToLower`,
    `String.Split(',')` and the decimal rendering of a positive `int`. */
module Text {

  /** `Char.IsWhiteSpace`: the Unicode space separators, the line and paragraph separators,
      and the control characters U+0009..U+000D and U+0085. */
  predicate IsWhiteSpace(c: char) {
    || ('\U{9}' <= c <= '\U{D}')
    || c == ' '
    || c == '\U{85}'
    || c == '\U{A0}'
    || c == '\U{1680}'
    || ('\U{2000}' <= c <= '\U{200A}')
    || c == '\U{2028}'
    || c == '\U{2029}'
    || c == '\U{202F}'
    || c == '\U{205F}'
    || c == '\U{3000}'
  }

  predicate IsDigit(c: char) {
    '0' <= c <= '9'
  }

  /** Every character of `s` satisfies `p`. */
  predicate AllChars(s: string, p: char -> bool) {
    forall i :: 0 <= i < |s| ==> p(s[i])
  }

  /** `String.IsNullOrWhiteSpace` for a non-null string. */
  predicate IsBlank(s: string) {
    AllChars(s, IsWhiteSpace)
  }

  /** Drops the longest prefix of characters satisfying `drop`. */
  function TrimStartWhere(s: string, drop: char -> bool): (r: string)
    ensures |r| <= |s| && r == s[|s| - |r|..]
    ensures AllChars(s[..|s| - |r|], drop)
    ensures r == [] || !drop(r[0])
    decreases |s|
  {
    if |s| > 0 && drop(s[0]) then
      var r := TrimStartWhere(s[1..], drop);
      assert s[..|s| - |r|] == [s[0]] + s[1..][..|s| - 1 - |r|];
      r
    else
      s
  }

  /** Drops the longest suffix of characters satisfying `drop`. */
  function TrimEndWhere(s: string, drop: char -> bool): (r: string)
    ensures |r| <= |s| && r == s[..|r|]
    ensures AllChars(s[|r|..], drop)
    ensures r == [] || !drop(r[|r| - 1])
    decreases |s|
  {
    if |s| > 0 && drop(s[|s| - 1]) then
      var r := TrimEndWhere(s[..|s| - 1], drop);
      assert s[|r|..] == s[..|s| - 1][|r|..] + [s[|s| - 1]];
      r
    else
      s
  }

  /** Drops both the longest prefix and the longest suffix of characters satisfying `drop`. */
  function TrimWhere(s: string, drop: char -> bool): (r: string)
    ensures |r| <= |s|
    ensures r == [] || (!drop(r[0]) && !drop(r[|r| - 1]))
    ensures r == [] <==> AllChars(s, drop)
  {
    var t := TrimStartWhere(s, drop);
    var r := TrimEndWhere(t, drop);
    assert r == [] ==> AllChars(s, drop) by {
      if r == [] {
        assert s == s[..|s| - |t|] + t;
        assert t == t[..0] + t[0..];
      }
    }
    assert AllChars(s, drop) ==> t == [];
    r
  }

  /** `String.Trim()`: strips leading and trailing white space. */
  function Trim(s: string): (r: string)
    ensures r == [] || (!IsWhiteSpace(r[0]) && !IsWhiteSpace(r[|r| - 1]))
    ensures r == [] <==> IsBlank(s)
  {
    TrimWhere(s, IsWhiteSpace)
  }

  /** The trimmed text is a contiguous piece of the original, and everything cut away on
      either side satisfies `drop`. */
  lemma TrimWhereIsInfix(s: string, drop: char -> bool)
    ensures exists i, j {:trigger s[i..j]} ::
      && 0 <= i <= j <= |s|
      && TrimWhere(s, drop) == s[i..j]
      && AllChars(s[..i], drop)
      && AllChars(s[j..], drop)
  {
    var t := TrimStartWhere(s, drop);
    var r := TrimEndWhere(t, drop);
    var i := |s| - |t|;
    var j := i + |r|;
    assert t == s[i..];
    assert r == s[i..j];
    assert s[j..] == t[|r|..];
  }

  /** Text that neither starts nor ends with a dropped character is left as it is. */
  lemma TrimWhereOfTrimmed(s: string, drop: char -> bool)
    requires s == [] || (!drop(s[0]) && !drop(s[|s| - 1]))
    ensures TrimWhere(s, drop) == s
  {
    assert TrimStartWhere(s, drop) == s;
    assert TrimEndWhere(s, drop) == s;
  }

  /** Trimming twice is trimming once. */
  lemma TrimWhereIdempotent(s: string, drop: char -> bool)
    ensures TrimWhere(TrimWhere(s, drop), drop) == TrimWhere(s, drop)
  {
    var t := TrimWhere(s, drop);
    assert t == [] || (!drop(t[0]) && !drop(t[|t| - 1]));
    TrimWhereOfTrimmed(t, drop);
  }

  lemma TrimIdempotent(s: string)
    ensures Trim(Trim(s)) == Trim(s)
  {
    TrimWhereIdempotent(s, IsWhiteSpace);
  }

  /** Lower-cases an ASCII letter and leaves every other character alone. */
  function LowerChar(c: char): (r: char)
    ensures 'A' <= c <= 'Z' ==> 'a' <= r <= 'z' && r as int - c as int == 32
    ensures !('A' <= c <= 'Z') ==> r == c
  {
    if 'A' <= c <= 'Z' then (c as int + 32) as char else c
  }

  /** `String.ToLower()`, restricted to the ASCII letters. */
  function Lower(s: string): (r: string)
    ensures |r| == |s|
    ensures forall i :: 0 <= i < |r| ==> r[i] == LowerChar(s[i])
  {
    seq(|s|, i requires 0 <= i < |s| => LowerChar(s[i]))
  }

  /** Joins `parts` with `sep` between consecutive parts (`String.Join`). */
  function Join(parts: seq<string>, sep: char): string {
    if |parts| == 0 then ""
    else if |parts| == 1 then parts[0]
    else parts[0] + [sep] + Join(parts[1..], sep)
  }

  /** Number of occurrences of `c` in `s`. */
  function Count(s: string, c: char): nat {
    if s == [] then 0 else (if s[0] == c then 1 else 0) + Count(s[1..], c)
  }

  /** `String.Split(sep)`: the maximal `sep`-free pieces between separators, empty pieces
      included; joining them back gives the input. */
  function Split(s: string, sep: char): (parts: seq<string>)
    ensures |parts| == Count(s, sep) + 1
    ensures forall i :: 0 <= i < |parts| ==> sep !in parts[i]
    ensures Join(parts, sep) == s
    decreases |s|
  {
    if s == [] then
      [""]
    else if s[0] == sep then
      var rest := Split(s[1..], sep);
      assert s == [sep] + s[1..];
      [""] + rest
    else
      var rest := Split(s[1..], sep);
      var parts := [[s[0]] + rest[0]] + rest[1..];
      assert Join(parts, sep) == [s[0]] + Join(rest, sep) by {
        if |rest| > 1 {
          assert parts[1..] == rest[1..];
        }
      }
      assert s == [s[0]] + s[1..];
      parts
  }

  /** Splitting a join of separator-free parts recovers the parts: with `Split`'s own
      contract, `Split` and `Join` are inverse bijections. */
  lemma {:induction false} SplitJoin(parts: seq<string>, sep: char)
    requires |parts| >= 1
    requires forall i :: 0 <= i < |parts| ==> sep !in parts[i]
    ensures Split(Join(parts, sep), sep) == parts
    decreases |parts|
  {
    var r := Split(Join(parts, sep), sep);
    SplitUnique(Join(parts, sep), sep, parts, r);
  }

  /** Two separator-free decompositions of the same text are the same decomposition. */
  lemma {:induction false} SplitUnique(s: string, sep: char, a: seq<string>, b: seq<string>)
    requires |a| >= 1 && |b| >= 1
    requires forall i :: 0 <= i < |a| ==> sep !in a[i]
    requires forall i :: 0 <= i < |b| ==> sep !in b[i]
    requires Join(a, sep) == s && Join(b, sep) == s
    ensures a == b
    decreases |a|
  {
    if |a| == 1 && |b| == 1 {
    } else if |a| == 1 {
      assert false;
    } else if |b| == 1 {
      assert false;
    } else {
      HeadsAgree(s, sep, a[0], b[0], Join(a[1..], sep), Join(b[1..], sep));
      var k := |a[0]|;
      assert Join(a[1..], sep) == s[k + 1..];
      assert Join(b[1..], sep) == s[k + 1..];
      SplitUnique(s[k + 1..], sep, a[1..], b[1..]);
      assert a == [a[0]] + a[1..];
      assert b == [b[0]] + b[1..];
    }
  }

  lemma HeadsAgree(s: string, sep: char, x: string, y: string, xs: string, ys: string)
    requires sep !in x && sep !in y
    requires s == x + [sep] + xs && s == y + [sep] + ys
    ensures x == y
  {
    assert forall i :: 0 <= i < |x| ==> s[i] == x[i] != sep;
    assert forall i :: 0 <= i < |y| ==> s[i] == y[i] != sep;
    assert s[|x|] == sep && s[|y|] == sep;
    assert x == s[..|x|] == y;
  }

  function DigitChar(d: nat): (c: char)
    requires d < 10
    ensures IsDigit(c) && c as int - '0' as int == d
  {
    ('0' as int + d) as char
  }

  /** Decimal rendering of a natural number, as `int.ToString()` writes a non-negative value. */
  function NatToString(n: nat): (s: string)
    ensures |s| >= 1 && AllChars(s, IsDigit)
    ensures n > 0 ==> s[0] != '0'
  {
    if n < 10 then [DigitChar(n)]
    else
      var s := NatToString(n / 10) + [DigitChar(n % 10)];
      assert AllChars(NatToString(n / 10), IsDigit);
      s
  }

  /** The value of a string of decimal digits. */
  function DigitsValue(s: string): nat
    requires AllChars(s, IsDigit)
  {
    if s == [] then 0
    else DigitsValue(s[..|s| - 1]) * 10 + (s[|s| - 1] as int - '0' as int)
  }

  /** Reading back a rendered number gives the number. */
  lemma {:induction false} DigitsValueOfNatToString(n: nat)
    ensures DigitsValue(NatToString(n)) == n
  {
    if n >= 10 {
      var s := NatToString(n);
      assert s[..|s| - 1] == NatToString(n / 10);
      DigitsValueOfNatToString(n / 10);
    }
  }

  /** A digit string without a leading zero is the rendering of its value. */
  lemma {:induction false} NatToStringOfDigits(t: string)
    requires |t| >= 1 && AllChars(t, IsDigit) && t[0] != '0'
    ensures DigitsValue(t) > 0 && NatToString(DigitsValue(t)) == t
    decreases |t|
  {
    var u := t[..|t| - 1];
    var c := t[|t| - 1] as int - '0' as int;
    assert DigitsValue(t) == DigitsValue(u) * 10 + c;
    if |t| == 1 {
      assert DigitChar(c) == t[0];
    } else {
      NatToStringOfDigits(u);
      var n := DigitsValue(t);
      assert n / 10 == DigitsValue(u) && n % 10 == c;
      assert NatToString(n) == u + [t[|t| - 1]];
    }
  }

  /** Length of the longest all-digit prefix of `s`. */
  function DigitPrefixLength(s: string): (k: nat)
    ensures k <= |s|
    ensures AllChars(s[..k], IsDigit)
    ensures k == |s| || !IsDigit(s[k])
  {
    if s == [] || !IsDigit(s[0]) then 0
    else
      var k := 1 + DigitPrefixLength(s[1..]);
      assert s[..k] == [s[0]] + s[1..][..k - 1];
      k
  }

  lemma {:induction false} DigitPrefixOfDigits(d: string, rest: string)
    requires AllChars(d, IsDigit)
    requires rest == [] || !IsDigit(rest[0])
    ensures DigitPrefixLength(d + rest) == |d|
    decreases |d|
  {
    if d != [] {
      assert (d + rest)[1..] == d[1..] + rest;
      DigitPrefixOfDigits(d[1..], rest);
    } else {
      assert d + rest == rest;
    }
  }
}
