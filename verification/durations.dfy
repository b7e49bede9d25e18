/** `Convert.ToTimeSpanString`: rendering a `TimeSpan` as Chinese-labelled text, and a reader
    for the composite form that shows the rendering loses nothing but sub-millisecond ticks. */
module Durations {
  import opened Wrappers
  import opened Text
  import opened Platform

  /** The unit labels in rendering order: days, hours, minutes, seconds, milliseconds. */
  function Label(k: nat): (l: string)
    requires k < 5
    ensures |l| >= 1 && !IsDigit(l[0])
  {
    match k
    case 0 => "天"
    case 1 => "小时"
    case 2 => "分"
    case 3 => "秒"
    case _ => "毫秒"
  }

  /** The label appended to a single-unit total. */
  function TotalLabel(format: CommonTimeSpanFormat): string
    requires format != TotalAll
  {
    match format
    case TotalDays => Label(0)
    case TotalHours => Label(1)
    case TotalMinutes => Label(2)
    case TotalSeconds => Label(3)
    case TotalMilliseconds => Label(4)
  }

  /** The five integer components of a span, in rendering order. */
  function ComponentsOf(span: TimeSpan): (cs: seq<int>)
    ensures |cs| == 5
  {
    [span.Days(), span.Hours(), span.Minutes(), span.Seconds(), span.Milliseconds()]
  }

  /** One `AppendFormat("{0}<label>", n)` guarded by `n > 0`. */
  function Segment(n: int, tag: string): string {
    if n > 0 then NatToString(n) + tag else ""
  }

  /** `Convert.ToTimeSpanString`. A single-unit format renders the (floating-point) total
      followed by its label; `TotalAll` renders every positive component with its label, in
      the order days, hours, minutes, seconds, milliseconds, with no separator. */
  function ToTimeSpanString(p: Primitives, span: TimeSpan, format: CommonTimeSpanFormat): (r: string)
    ensures format != TotalAll ==> r == p.formatTotal(span, format) + TotalLabel(format)
    ensures format == TotalAll ==>
      (r == [] <==> forall k :: 0 <= k < 5 ==> ComponentsOf(span)[k] <= 0)
    ensures format == TotalAll ==> ParseTimeSpanString(r) == Some(Clamp(ComponentsOf(span)))
  {
    match format
    case TotalAll =>
      // The five appends to one builder; concatenation is associative, so the nesting
      // (chosen to match the reader's front-to-back order) does not change the text.
      var r := Segment(span.Days(), "天")
        + (Segment(span.Hours(), "小时")
        + (Segment(span.Minutes(), "分")
        + (Segment(span.Seconds(), "秒")
        + Segment(span.Milliseconds(), "毫秒"))));
      CompositeIsRenderFrom(span);
      RenderFromEmpty(ComponentsOf(span), 0);
      ParseRenderFrom(ComponentsOf(span), 0);
      r
    case _ =>
      p.formatTotal(span, format) + TotalLabel(format)
  }

  /** Rendering of components `cs` standing for units `k`, `k + 1`, ..., 4. */
  function RenderFrom(cs: seq<int>, k: nat): string
    requires |cs| + k == 5
    decreases |cs|
  {
    if cs == [] then "" else Segment(cs[0], Label(k)) + RenderFrom(cs[1..], k + 1)
  }

  lemma CompositeIsRenderFrom(span: TimeSpan)
    ensures RenderFrom(ComponentsOf(span), 0) ==
      Segment(span.Days(), "天")
        + (Segment(span.Hours(), "小时")
        + (Segment(span.Minutes(), "分")
        + (Segment(span.Seconds(), "秒")
        + Segment(span.Milliseconds(), "毫秒"))))
  {
    RenderFive(span.Days(), span.Hours(), span.Minutes(), span.Seconds(), span.Milliseconds());
  }

  /** The composite rendering, one unit at a time from milliseconds back to days. */
  lemma RenderFive(a: int, b: int, c: int, d: int, e: int)
    ensures RenderFrom([a, b, c, d, e], 0) ==
      Segment(a, "天") + (Segment(b, "小时") + (Segment(c, "分") + (Segment(d, "秒") + Segment(e, "毫秒"))))
  {
    RenderFour(b, c, d, e);
    assert [a, b, c, d, e][1..] == [b, c, d, e];
  }

  lemma RenderFour(b: int, c: int, d: int, e: int)
    ensures RenderFrom([b, c, d, e], 1) ==
      Segment(b, "小时") + (Segment(c, "分") + (Segment(d, "秒") + Segment(e, "毫秒")))
  {
    RenderThree(c, d, e);
    assert [b, c, d, e][1..] == [c, d, e];
  }

  lemma RenderThree(c: int, d: int, e: int)
    ensures RenderFrom([c, d, e], 2) == Segment(c, "分") + (Segment(d, "秒") + Segment(e, "毫秒"))
  {
    RenderTwo(d, e);
    assert [c, d, e][1..] == [d, e];
  }

  lemma RenderTwo(d: int, e: int)
    ensures RenderFrom([d, e], 3) == Segment(d, "秒") + Segment(e, "毫秒")
  {
    assert [d, e][1..] == [e];
    assert [e][1..] == [];
    assert RenderFrom([e], 4) == Segment(e, "毫秒") + "";
    assert Segment(e, "毫秒") + "" == Segment(e, "毫秒");
  }

  /** Negative and zero components read back as zero. */
  function Clamp(cs: seq<int>): (r: seq<nat>)
    ensures |r| == |cs|
    ensures forall i :: 0 <= i < |cs| ==> r[i] == if cs[i] > 0 then cs[i] else 0
  {
    seq(|cs|, i requires 0 <= i < |cs| => if cs[i] > 0 then cs[i] else 0)
  }

  /** Reads `<digits><label>` at the start of `s`: the number and what follows the label.
      The number is written as `int.ToString()` writes a positive value: no leading zero. */
  function ReadSegment(s: string, tag: string): Option<(nat, string)> {
    var k := DigitPrefixLength(s);
    if k > 0 && s[0] != '0' && tag <= s[k..] then Some((DigitsValue(s[..k]), s[k + |tag|..]))
    else None
  }

  /** Reads the segments for units `k` .. 4 in order; an absent segment reads as 0. */
  function ParseFrom(s: string, k: nat): (r: Option<seq<nat>>)
    requires k <= 5
    ensures r.Some? ==> |r.value| == 5 - k
    decreases 5 - k
  {
    if k == 5 then
      if s == [] then Some([]) else None
    else
      match ReadSegment(s, Label(k))
      case Some((n, rest)) =>
        (match ParseFrom(rest, k + 1)
         case Some(tail) => Some([n] + tail)
         case None => None)
      case None =>
        (match ParseFrom(s, k + 1)
         case Some(tail) => Some([0] + tail)
         case None => None)
  }

  /** Reads a `TotalAll` rendering back into days, hours, minutes, seconds, milliseconds. */
  function ParseTimeSpanString(s: string): Option<seq<nat>> {
    ParseFrom(s, 0)
  }

  lemma {:induction false} RenderFromEmpty(cs: seq<int>, k: nat)
    requires |cs| + k == 5
    ensures RenderFrom(cs, k) == [] <==> forall i :: 0 <= i < |cs| ==> cs[i] <= 0
    decreases |cs|
  {
    if cs != [] {
      RenderFromEmpty(cs[1..], k + 1);
      assert forall i :: 1 <= i < |cs| ==> cs[i] == cs[1..][i - 1];
      if cs[0] > 0 {
        assert |RenderFrom(cs, k)| >= |NatToString(cs[0])|;
      }
    }
  }

  lemma LabelHeadsDistinct(i: nat, j: nat)
    requires i < 5 && j < 5 && i != j
    ensures Label(i)[0] != Label(j)[0]
  {
  }

  /** `s` is empty, or the character after its leading digits starts no label of a unit
      before `k`. */
  predicate NoEarlierLabel(s: string, k: nat)
    requires k <= 5
  {
    s == [] ||
    (DigitPrefixLength(s) < |s| &&
     forall i :: 0 <= i < k ==> s[DigitPrefixLength(s)] != Label(i)[0])
  }

  /** A rendering from unit `k` on contains no segment for an earlier unit. */
  lemma {:induction false} RenderFromShape(cs: seq<int>, k: nat)
    requires |cs| + k == 5
    ensures NoEarlierLabel(RenderFrom(cs, k), k)
    decreases |cs|
  {
    if cs != [] {
      if cs[0] > 0 {
        PresentShape(cs, k);
      } else {
        RenderFromShape(cs[1..], k + 1);
        AbsentShape(cs, k);
      }
    }
  }

  /** A rendering that starts with a segment for unit `k`. */
  lemma PresentShape(cs: seq<int>, k: nat)
    requires |cs| + k == 5 && cs != [] && cs[0] > 0
    ensures NoEarlierLabel(RenderFrom(cs, k), k)
  {
    var rest := RenderFrom(cs[1..], k + 1);
    assert RenderFrom(cs, k) == NatToString(cs[0]) + Label(k) + rest;
    SegmentShape(cs[0], k, rest);
  }

  /** A rendering without a segment for unit `k` is that of the later units. */
  lemma AbsentShape(cs: seq<int>, k: nat)
    requires |cs| + k == 5 && cs != [] && cs[0] <= 0
    requires NoEarlierLabel(RenderFrom(cs[1..], k + 1), k + 1)
    ensures NoEarlierLabel(RenderFrom(cs, k), k)
  {
    assert RenderFrom(cs, k) == RenderFrom(cs[1..], k + 1);
  }

  /** After its digits, a segment for unit `k` continues with the label of unit `k`. */
  lemma SegmentShape(n: nat, k: nat, rest: string)
    requires n > 0 && k < 5
    ensures NoEarlierLabel(NatToString(n) + Label(k) + rest, k)
  {
    var d := NatToString(n);
    var s := d + Label(k) + rest;
    assert s == d + (Label(k) + rest);
    DigitPrefixOfDigits(d, Label(k) + rest);
    assert s[|d|] == Label(k)[0];
    forall i | 0 <= i < k
      ensures s[|d|] != Label(i)[0]
    {
      LabelHeadsDistinct(i, k);
    }
  }

  /** A segment rendered for unit `k` reads back as its number. */
  lemma ReadRenderedSegment(n: nat, k: nat, rest: string)
    requires n > 0 && k < 5
    ensures ReadSegment(NatToString(n) + Label(k) + rest, Label(k)) == Some((n, rest))
  {
    var d := NatToString(n);
    var s := d + Label(k) + rest;
    assert s == d + (Label(k) + rest);
    DigitPrefixOfDigits(d, Label(k) + rest);
    assert s[..|d|] == d;
    DigitsValueOfNatToString(n);
    assert s[|d|..] == Label(k) + rest;
    assert s[|d| + |Label(k)|..] == rest;
  }

  /** The rendering of the later units has no segment for unit `k`. */
  lemma ReadSegmentOfLaterUnits(cs: seq<int>, k: nat)
    requires |cs| + k + 1 == 5
    ensures ReadSegment(RenderFrom(cs, k + 1), Label(k)) == None
  {
    RenderFromShape(cs, k + 1);
  }

  /** Reading a rendering gives back its components, with non-positive ones as zero. */
  lemma {:induction false} ParseRenderFrom(cs: seq<int>, k: nat)
    requires |cs| + k == 5
    ensures ParseFrom(RenderFrom(cs, k), k) == Some(Clamp(cs))
    decreases |cs|
  {
    if cs != [] {
      ParseRenderFrom(cs[1..], k + 1);
      ClampCons(cs);
      if cs[0] > 0 {
        ParsePresentSegment(cs, k, Clamp(cs[1..]));
      } else {
        ParseAbsentSegment(cs, k, Clamp(cs[1..]));
      }
    }
  }

  lemma ClampCons(cs: seq<int>)
    requires cs != []
    ensures Clamp(cs) == [if cs[0] > 0 then cs[0] else 0] + Clamp(cs[1..])
  {
  }

  /** A positive leading component is read from its segment, then the later units. */
  lemma ParsePresentSegment(cs: seq<int>, k: nat, tail: seq<nat>)
    requires |cs| + k == 5 && cs != [] && cs[0] > 0
    requires ParseFrom(RenderFrom(cs[1..], k + 1), k + 1) == Some(tail)
    ensures ParseFrom(RenderFrom(cs, k), k) == Some([cs[0]] + tail)
  {
    var rest := RenderFrom(cs[1..], k + 1);
    assert RenderFrom(cs, k) == NatToString(cs[0]) + Label(k) + rest;
    ReadRenderedSegment(cs[0], k, rest);
  }

  /** A non-positive leading component has no segment and reads as 0. */
  lemma ParseAbsentSegment(cs: seq<int>, k: nat, tail: seq<nat>)
    requires |cs| + k == 5 && cs != [] && cs[0] <= 0
    requires ParseFrom(RenderFrom(cs[1..], k + 1), k + 1) == Some(tail)
    ensures ParseFrom(RenderFrom(cs, k), k) == Some([0] + tail)
  {
    var rest := RenderFrom(cs[1..], k + 1);
    assert RenderFrom(cs, k) == rest;
    ReadSegmentOfLaterUnits(cs[1..], k);
  }

  /** The reader accepts only renderings: whatever it reads back renders as the text read. */
  lemma {:induction false} ParseFromIsCanonical(s: string, k: nat, v: seq<nat>)
    requires k <= 5 && ParseFrom(s, k) == Some(v)
    ensures s == RenderFrom(v, k)
    decreases 5 - k
  {
    if k < 5 {
      match ReadSegment(s, Label(k))
      case Some((n, rest)) =>
        var tail := ParseFrom(rest, k + 1).value;
        ParseFromIsCanonical(rest, k + 1, tail);
        CanonicalPresentSegment(s, k, n, rest, tail);
      case None =>
        var tail := ParseFrom(s, k + 1).value;
        ParseFromIsCanonical(s, k + 1, tail);
        CanonicalAbsentSegment(s, k, tail);
    }
  }

  /** A segment that was read renders back in front of the later units' text. */
  lemma CanonicalPresentSegment(s: string, k: nat, n: nat, rest: string, tail: seq<nat>)
    requires k < 5 && ReadSegment(s, Label(k)) == Some((n, rest))
    requires ParseFrom(rest, k + 1) == Some(tail) && rest == RenderFrom(tail, k + 1)
    ensures ParseFrom(s, k) == Some([n] + tail) && s == RenderFrom([n] + tail, k)
  {
    ReadSegmentIsRendering(s, Label(k));
    assert ([n] + tail)[1..] == tail;
  }

  /** A unit without a segment reads as 0, which renders as nothing. */
  lemma CanonicalAbsentSegment(s: string, k: nat, tail: seq<nat>)
    requires k < 5 && ReadSegment(s, Label(k)) == None
    requires ParseFrom(s, k + 1) == Some(tail) && s == RenderFrom(tail, k + 1)
    ensures ParseFrom(s, k) == Some([0] + tail) && s == RenderFrom([0] + tail, k)
  {
    assert ([0] + tail)[1..] == tail;
  }

  /** A segment the reader accepts is a positive number rendered, its label, and the rest. */
  lemma ReadSegmentIsRendering(s: string, tag: string)
    requires ReadSegment(s, tag).Some?
    ensures var (n, rest) := ReadSegment(s, tag).value;
      n > 0 && s == NatToString(n) + tag + rest
  {
    var k := DigitPrefixLength(s);
    NatToStringOfDigits(s[..k]);
    assert s == s[..k] + s[k..k + |tag|] + s[k + |tag|..];
  }

  /** The `TotalAll` rendering is the only text that reads back as the span's components, so
      no zero component gets a segment and no number is padded. */
  lemma TimeSpanStringIsOnlyReading(p: Primitives, span: TimeSpan, s: string)
    requires ParseTimeSpanString(s) == Some(Clamp(ComponentsOf(span)))
    ensures s == ToTimeSpanString(p, span, TotalAll)
  {
    ParseFromIsCanonical(s, 0, Clamp(ComponentsOf(span)));
    ParseFromIsCanonical(ToTimeSpanString(p, span, TotalAll), 0, Clamp(ComponentsOf(span)));
  }

  /** For a non-negative span the composite rendering determines the span to the
      millisecond: the components read back from it add up to the span's ticks with the
      sub-millisecond remainder dropped. */
  lemma TimeSpanStringDeterminesSpan(p: Primitives, span: TimeSpan)
    requires span.ticks >= 0
    ensures var parsed := ParseTimeSpanString(ToTimeSpanString(p, span, TotalAll));
      && parsed.Some?
      && parsed.value[0] * TicksPerDay + parsed.value[1] * TicksPerHour
         + parsed.value[2] * TicksPerMinute + parsed.value[3] * TicksPerSecond
         + parsed.value[4] * TicksPerMillisecond
         == span.ticks - span.ticks % TicksPerMillisecond
  {
    NonNegativeSpanComponents(span);
  }

  /** A negative span renders as the empty string under `TotalAll`. */
  lemma NegativeSpanRendersEmpty(p: Primitives, span: TimeSpan)
    requires span.ticks < 0
    ensures ToTimeSpanString(p, span, TotalAll) == ""
  {
    NegativeSpanComponents(span);
  }

  /** One day and five minutes: only the day and minute segments appear. */
  lemma OneDayFiveMinutes(p: Primitives)
    ensures ToTimeSpanString(p, TimeSpan(TicksPerDay + 5 * TicksPerMinute), TotalAll) == "1天5分"
  {
    var span := TimeSpan(TicksPerDay + 5 * TicksPerMinute);
    assert span.Days() == 1 && span.Hours() == 0 && span.Minutes() == 5;
    assert span.Seconds() == 0 && span.Milliseconds() == 0;
    assert NatToString(1) == "1" && NatToString(5) == "5";
  }
}
