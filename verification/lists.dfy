/** `Convert.ToList<T>` and the two `Convert.ToGuidList` overloads. */
module Lists {
  import opened Wrappers
  import opened Text
  import opened Platform
  import opened Strings
  import opened Guids
  import opened Generic

  /** The segments that are not empty or all white space, in their original order. */
  function NonBlank(segs: seq<string>): (r: seq<string>)
    ensures |r| <= |segs|
    ensures forall i :: 0 <= i < |r| ==> !IsBlank(r[i])
    ensures forall x :: x in r ==> x in segs
  {
    if segs == [] then []
    else if IsBlank(segs[0]) then NonBlank(segs[1..])
    else [segs[0]] + NonBlank(segs[1..])
  }

  /** Filtering distributes over concatenation, so it keeps the relative order of the
      segments it keeps. */
  lemma {:induction false} NonBlankAppend(a: seq<string>, b: seq<string>)
    ensures NonBlank(a + b) == NonBlank(a) + NonBlank(b)
    decreases |a|
  {
    if a == [] {
      assert a + b == b;
    } else {
      assert (a + b)[1..] == a[1..] + b;
      NonBlankAppend(a[1..], b);
    }
  }

  /** Filtering keeps every segment when none is blank. */
  lemma {:induction false} NonBlankOfNonBlank(segs: seq<string>)
    requires forall i :: 0 <= i < |segs| ==> !IsBlank(segs[i])
    ensures NonBlank(segs) == segs
    decreases |segs|
  {
    if segs != [] {
      NonBlankOfNonBlank(segs[1..]);
    }
  }

  /** The segments that are not blank, each converted with `To<T>`: one converted element
      per non-blank segment, in order. */
  function ConvertSegments<T>(p: Primitives, t: TargetType<T>, segs: seq<string>): (r: seq<T>)
    ensures |r| == |NonBlank(segs)|
    ensures forall i :: 0 <= i < |r| ==> r[i] == To(p, t, Str(NonBlank(segs)[i]))
    decreases |segs|
  {
    if segs == [] then []
    else if IsBlank(segs[0]) then ConvertSegments(p, t, segs[1..])
    else [To(p, t, Str(segs[0]))] + ConvertSegments(p, t, segs[1..])
  }

  /** `Convert.ToList<T>`: an empty list for a null or blank input; otherwise the input split
      on commas, blank segments skipped, and each remaining segment (untrimmed) converted by
      `To<T>`. Unconvertible segments are kept, as `default(T)`. */
  function ToList<T>(p: Primitives, t: TargetType<T>, input: Option<string>): (r: seq<T>)
    ensures IsEmpty(input) ==> r == []
    ensures !IsEmpty(input) ==>
      var segs := NonBlank(Split(input.value, ','));
      && |r| == |segs|
      && forall i :: 0 <= i < |r| ==> r[i] == To(p, t, Str(segs[i]))
  {
    if IsEmpty(input) then [] else ConvertSegments(p, t, Split(input.value, ','))
  }

  /** A join of separator-free parts begins with its first part. */
  lemma JoinStartsWithHead(parts: seq<string>, sep: char)
    requires |parts| >= 1
    ensures |parts[0]| <= |Join(parts, sep)| && Join(parts, sep)[..|parts[0]|] == parts[0]
  {
  }

  lemma JoinNotBlank(parts: seq<string>, sep: char)
    requires |parts| >= 1 && !IsBlank(parts[0])
    ensures !IsBlank(Join(parts, sep))
  {
    JoinStartsWithHead(parts, sep);
    var k :| 0 <= k < |parts[0]| && !IsWhiteSpace(parts[0][k]);
    assert Join(parts, sep)[k] == parts[0][k];
  }

  /** For non-blank, comma-free segments, `ToList` of their comma-join converts each segment
      in place: one element per segment, in order. */
  lemma ToListOfJoin<T>(p: Primitives, t: TargetType<T>, segs: seq<string>)
    requires |segs| >= 1
    requires forall i :: 0 <= i < |segs| ==> ',' !in segs[i] && !IsBlank(segs[i])
    ensures |ToList(p, t, Some(Join(segs, ',')))| == |segs|
    ensures forall i :: 0 <= i < |segs| ==> ToList(p, t, Some(Join(segs, ',')))[i] == To(p, t, Str(segs[i]))
  {
    SplitJoin(segs, ',');
    NonBlankOfNonBlank(segs);
    JoinNotBlank(segs, ',');
  }

  /** "1,,2, 3" splits into "1", "", "2" and " 3", of which the empty one is blank. */
  lemma SampleSegments(s: string)
    requires s == "1,,2, 3"
    ensures !IsBlank(s)
    ensures NonBlank(Split(s, ',')) == ["1", "2", " 3"]
  {
    var parts := ["1", "", "2", " 3"];
    SampleJoin(parts, s);
    SplitJoin(parts, ',');
    SampleNonBlank(parts);
    assert !IsWhiteSpace(s[0]);
  }

  lemma SampleJoin(parts: seq<string>, s: string)
    requires parts == ["1", "", "2", " 3"] && s == "1,,2, 3"
    ensures Join(parts, ',') == s
  {
    assert parts[1..] == ["", "2", " 3"];
    assert parts[1..][1..] == ["2", " 3"];
    assert parts[1..][1..][1..] == [" 3"];
    assert Join([" 3"], ',') == " 3";
    assert Join(["2", " 3"], ',') == "2" + [','] + " 3";
    assert Join(["", "2", " 3"], ',') == "" + [','] + "2, 3";
    assert Join(parts, ',') == "1" + [','] + ",2, 3";
  }

  lemma SampleNonBlank(parts: seq<string>)
    requires parts == ["1", "", "2", " 3"]
    ensures NonBlank(parts) == ["1", "2", " 3"]
  {
    assert parts[1..] == ["", "2", " 3"];
    assert parts[1..][1..] == ["2", " 3"];
    assert parts[1..][1..][1..] == [" 3"];
    assert !IsWhiteSpace("1"[0]) && !IsWhiteSpace("2"[0]) && !IsWhiteSpace(" 3"[1]);
    assert IsBlank("") && !IsBlank("1") && !IsBlank("2") && !IsBlank(" 3");
    assert NonBlank([" 3"]) == [" 3"];
    assert NonBlank(["2", " 3"]) == ["2", " 3"];
    assert NonBlank(["", "2", " 3"]) == ["2", " 3"];
  }

  /** Empty and white-space segments are skipped, other segments are passed on with their
      white space: "1,,2, 3" converts "1", "2" and " 3". */
  lemma ToListSample<T>(p: Primitives, t: TargetType<T>, s: string, kept: seq<string>)
    requires s == "1,,2, 3" && kept == ["1", "2", " 3"]
    ensures |ToList(p, t, Some(s))| == 3
    ensures ToList(p, t, Some(s))[0] == To(p, t, Str(kept[0]))
    ensures ToList(p, t, Some(s))[1] == To(p, t, Str(kept[1]))
    ensures ToList(p, t, Some(s))[2] == To(p, t, Str(kept[2]))
  {
    SampleSegments(s);
    ThreeSegments(p, t, s, kept);
  }

  lemma ThreeSegments<T>(p: Primitives, t: TargetType<T>, s: string, kept: seq<string>)
    requires !IsBlank(s) && NonBlank(Split(s, ',')) == kept && |kept| == 3
    ensures |ToList(p, t, Some(s))| == 3
    ensures ToList(p, t, Some(s))[0] == To(p, t, Str(kept[0]))
    ensures ToList(p, t, Some(s))[1] == To(p, t, Str(kept[1]))
    ensures ToList(p, t, Some(s))[2] == To(p, t, Str(kept[2]))
  {
    assert SafeString(OfString(Some(s))) != [];
    assert !IsEmpty(Some(s));
    var r := ToList(p, t, Some(s));
    assert |r| == 3;
    assert r[0] == To(p, t, Str(kept[0]));
    assert r[1] == To(p, t, Str(kept[1]));
    assert r[2] == To(p, t, Str(kept[2]));
  }

  /** `ToList<string>` never yields null elements and keeps each segment's white space. */
  lemma ToStringListKeepsSegments(p: Primitives, s: string)
    requires !IsBlank(s)
    ensures var r := ToList(p, StringTarget(), Some(s));
      && |r| == |NonBlank(Split(s, ','))|
      && forall i :: 0 <= i < |r| ==> r[i] == Some(NonBlank(Split(s, ','))[i])
  {
    var segs := NonBlank(Split(s, ','));
    forall i | 0 <= i < |segs|
      ensures To(p, StringTarget(), Str(segs[i])) == Some(segs[i])
    {
      ToStringKeepsRawText(p, Str(segs[i]));
    }
  }

  /** `Convert.ToGuidList(string)`: `ToList<Guid>`. Each non-blank segment goes to the `Guid`
      constructor untrimmed; one that it rejects becomes `Guid.Empty` rather than being
      dropped. */
  function ToGuidList(p: Primitives, input: Option<string>): (r: seq<Guid>)
    ensures IsEmpty(input) ==> r == []
    ensures !IsEmpty(input) ==>
      var segs := NonBlank(Split(input.value, ','));
      && |r| == |segs|
      && forall i :: 0 <= i < |r| ==> r[i] == p.newGuid(segs[i]).GetOr(GuidEmpty)
  {
    if IsEmpty(input) then ToList(p, GuidTarget(), input)
    else
      GuidSegmentsUseConstructor(p, NonBlank(Split(input.value, ',')));
      ToList(p, GuidTarget(), input)
  }

  /** `To<Guid>` of each segment is the `Guid` constructor, or `Guid.Empty` when it throws. */
  lemma GuidSegmentsUseConstructor(p: Primitives, segs: seq<string>)
    requires forall i :: 0 <= i < |segs| ==> !IsBlank(segs[i])
    ensures forall i :: 0 <= i < |segs| ==>
      To(p, GuidTarget(), Str(segs[i])) == p.newGuid(segs[i]).GetOr(GuidEmpty)
  {
    forall i | 0 <= i < |segs|
      ensures To(p, GuidTarget(), Str(segs[i])) == p.newGuid(segs[i]).GetOr(GuidEmpty)
    {
      ToGuidUsesConstructor(p, segs[i]);
    }
  }

  /** `Convert.ToGuidList(IList<string>)`: an empty list for null, otherwise `ToGuid` of each
      element (a null element is a null input), so unparseable elements become
      `Guid.Empty`. */
  function ToGuidListOf(p: Primitives, items: Option<seq<Option<string>>>): (r: seq<Guid>)
    ensures items.None? ==> r == []
    ensures items.Some? ==> |r| == |items.value|
    ensures items.Some? ==> forall i :: 0 <= i < |r| ==>
      r[i] == p.parseGuid(SafeString(OfString(items.value[i]))).GetOr(GuidEmpty)
  {
    match items
    case None => []
    case Some(xs) => seq(|xs|, i requires 0 <= i < |xs| => ToGuid(p, OfString(xs[i])))
  }

  /** The delimited overload on a comma-join of non-blank, comma-free texts hands each text
      to the `Guid` constructor in place, and keeps a rejected one as `Guid.Empty` at its own
      position instead of dropping it. */
  lemma DelimitedGuidListKeepsUnparseable(p: Primitives, segs: seq<string>, k: nat)
    requires |segs| >= 1
    requires forall i :: 0 <= i < |segs| ==> ',' !in segs[i] && !IsBlank(segs[i])
    requires k < |segs| && p.newGuid(segs[k]).None?
    ensures |ToGuidList(p, Some(Join(segs, ',')))| == |segs|
    ensures ToGuidList(p, Some(Join(segs, ',')))[k] == GuidEmpty
  {
    SplitJoin(segs, ',');
    NonBlankOfNonBlank(segs);
    JoinNotBlank(segs, ',');
  }

  /** The list overload likewise keeps one `Guid` per element, `Guid.Empty` where the text
      does not parse. */
  lemma GuidListOfKeepsUnparseable(p: Primitives, items: seq<Option<string>>, k: nat)
    requires k < |items| && p.parseGuid(SafeString(OfString(items[k]))).None?
    ensures |ToGuidListOf(p, Some(items))| == |items|
    ensures ToGuidListOf(p, Some(items))[k] == GuidEmpty
  {
  }
}
