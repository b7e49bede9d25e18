/** `Convert.To<T>`: conversion to a target type chosen at run time by the type's name and
    kind. A target type is described by a `TargetType<T>` holding its name, whether it is an
    enum, `default(T)`, and the runtime conversions each branch calls. */
module Generic {
  import opened Wrappers
  import opened Text
  import opened Platform
  import opened Strings

  /** The runtime view of a target type `T` (after `Common.GetType<T>()`). Each conversion
      gives `None` where the runtime call throws. */
  datatype TargetType<T> = TargetType(
    name: string,                     // Type.Name
    isEnum: bool,                     // Type.IsEnum
    zero: T,                          // default(T)
    fromText: string -> Option<T>,    // (T)(object)text
    fromGuid: Guid -> Option<T>,      // (T)(object)guid
    parseEnum: Input -> Option<T>,    // Enum.Parse<T>(input)
    changeType: Input -> Option<T>,   // (T)System.Convert.ChangeType(input, type)
    cast: Input -> Option<T>)         // (T)input

  /** `input is IConvertible`; every string is. */
  predicate IsConvertible(input: Input)
    requires !input.Null?
  {
    input.Str? || input.convertible
  }

  /** The inputs `To<T>` answers with `default(T)` before looking at the type: null, and a
      string that is empty or all white space. */
  predicate Unconvertible(input: Input) {
    input.Null? || (input.Str? && IsBlank(input.s))
  }

  /** The branches of `To<T>`, in the order they are tried. */
  datatype Branch = TextBranch | GuidBranch | EnumBranch | ChangeTypeBranch | CastBranch

  /** The branch `To<T>` takes: the lower-cased type name picks text or `Guid`; otherwise an
      enum type is parsed, an `IConvertible` input goes through `ChangeType`, and anything
      else is cast. */
  function BranchOf<T>(t: TargetType<T>, input: Input): (b: Branch)
    requires !input.Null?
    ensures b == TextBranch <==> Lower(t.name) == "string"
    ensures b == GuidBranch <==> Lower(t.name) == "guid"
    ensures b == EnumBranch <==> Lower(t.name) != "string" && Lower(t.name) != "guid" && t.isEnum
    ensures b == ChangeTypeBranch <==>
      Lower(t.name) != "string" && Lower(t.name) != "guid" && !t.isEnum && IsConvertible(input)
    ensures b == CastBranch <==>
      Lower(t.name) != "string" && Lower(t.name) != "guid" && !t.isEnum && !IsConvertible(input)
  {
    var typeName := Lower(t.name);
    if typeName == "string" then TextBranch
    else if typeName == "guid" then GuidBranch
    else if t.isEnum then EnumBranch
    else if IsConvertible(input) then ChangeTypeBranch
    else CastBranch
  }

  /** The body of the `try` block: the chosen branch's conversion, `None` where it throws. */
  function Attempt<T>(p: Primitives, t: TargetType<T>, input: Input): (r: Option<T>)
    requires !input.Null?
    ensures BranchOf(t, input) == TextBranch ==> r == t.fromText(ToText(input))
    ensures BranchOf(t, input) == GuidBranch ==>
      (r.Some? <==> p.newGuid(ToText(input)).Some? && t.fromGuid(p.newGuid(ToText(input)).value).Some?)
    ensures BranchOf(t, input) == GuidBranch && r.Some? ==>
      r == t.fromGuid(p.newGuid(ToText(input)).value)
    ensures BranchOf(t, input) == EnumBranch ==> r == t.parseEnum(input)
    ensures BranchOf(t, input) == ChangeTypeBranch ==> r == t.changeType(input)
    ensures BranchOf(t, input) == CastBranch ==> r == t.cast(input)
  {
    match BranchOf(t, input)
    case TextBranch => t.fromText(ToText(input))
    case GuidBranch =>
      (match p.newGuid(ToText(input))
       case Some(g) => t.fromGuid(g)
       case None => None)
    case EnumBranch => t.parseEnum(input)
    case ChangeTypeBranch => t.changeType(input)
    case CastBranch => t.cast(input)
  }

  /** `Convert.To<T>`: `default(T)` for a null or blank-string input; otherwise the chosen
      branch's result, with any exception caught and turned into `default(T)`. Never fails. */
  function To<T>(p: Primitives, t: TargetType<T>, input: Input): (r: T)
    ensures Unconvertible(input) ==> r == t.zero
    ensures !Unconvertible(input) && Attempt(p, t, input).Some? ==> r == Attempt(p, t, input).value
    ensures !Unconvertible(input) && Attempt(p, t, input).None? ==> r == t.zero
  {
    if input.Null? then t.zero
    else if input.Str? && IsBlank(input.s) then t.zero
    else Attempt(p, t, input).GetOr(t.zero)
  }

  /** `string` as a target: `default(string)` is null (`None`), and the text cast succeeds. */
  function StringTarget(): TargetType<Option<string>> {
    TargetType("String", false, None,
      s => Some(Some(s)), _ => None, _ => None, _ => None, _ => None)
  }

  /** `Guid` as a target: `default(Guid)` is `Guid.Empty`, and a constructed `Guid` casts to
      itself. */
  function GuidTarget(): TargetType<Guid> {
    TargetType("Guid", false, GuidEmpty,
      _ => None, g => Some(g), _ => None, _ => None, _ => None)
  }

  /** To `string`, every non-null input that is not a blank string gives its `ToString()`
      text unchanged: not trimmed, unlike every other conversion. */
  lemma ToStringKeepsRawText(p: Primitives, input: Input)
    ensures Unconvertible(input) ==> To(p, StringTarget(), input) == None
    ensures !Unconvertible(input) ==> To(p, StringTarget(), input) == Some(ToText(input))
  {
    assert Lower("String") == "string";
  }

  /** To `Guid`, a non-blank string is handed to the `Guid` constructor as it is, and a
      text the constructor rejects gives `Guid.Empty`. */
  lemma ToGuidUsesConstructor(p: Primitives, s: string)
    ensures IsBlank(s) ==> To(p, GuidTarget(), Str(s)) == GuidEmpty
    ensures !IsBlank(s) ==> To(p, GuidTarget(), Str(s)) == p.newGuid(s).GetOr(GuidEmpty)
  {
    assert Lower("Guid") == "guid";
    assert Lower("Guid") != "string";
  }

  /** The type name is matched case-insensitively: any capitalisation of "string" selects
      the text branch, whatever else the type says. */
  lemma TypeNameCaseInsensitive<T>(t: TargetType<T>, u: TargetType<T>, input: Input)
    requires !input.Null?
    requires Lower(t.name) == Lower(u.name) && t.isEnum == u.isEnum
    ensures BranchOf(t, input) == BranchOf(u, input)
  {
  }

  /** For a type that is neither text nor `Guid`, being an enum takes precedence over the
      input being `IConvertible`. */
  lemma EnumBeforeChangeType<T>(p: Primitives, t: TargetType<T>, input: Input)
    requires !Unconvertible(input)
    requires Lower(t.name) != "string" && Lower(t.name) != "guid" && t.isEnum
    ensures To(p, t, input) == t.parseEnum(input).GetOr(t.zero)
  {
  }

  /** A non-string input that does not implement `IConvertible`, for a plain target type,
      goes to the direct cast. */
  lemma NonConvertibleIsCast<T>(p: Primitives, t: TargetType<T>, text: string, identity: nat)
    requires Lower(t.name) != "string" && Lower(t.name) != "guid" && !t.isEnum
    ensures To(p, t, Boxed(text, false, identity)) == t.cast(Boxed(text, false, identity)).GetOr(t.zero)
  {
  }

  /** `ChangeType` to `int`, as the runtime does it: the `char` '5' (identity 0) converts to
      its code 53, the `int` 5 (identity 1) to 5. */
  function CharOrIntToInt32(input: Input): Option<int> {
    match input
    case Boxed(_, _, identity) => if identity == 0 then Some(53) else Some(5)
    case _ => None
  }

  /** An `int` target: no text, `Guid`, enum or cast conversion is needed here. */
  function Int32Target(): TargetType<int> {
    TargetType("Int32", false, 0,
      _ => None, _ => None, _ => None, CharOrIntToInt32, _ => None)
  }

  /** Two boxed values with the same text can convert differently: `To<int>` of the `char`
      '5' is 53, of the `int` 5 is 5, so a boxed value is more than its text. */
  lemma BoxedValueIsMoreThanText(p: Primitives, text: string)
    ensures To(p, Int32Target(), Boxed(text, true, 0)) == 53
    ensures To(p, Int32Target(), Boxed(text, true, 1)) == 5
  {
    assert Lower("Int32") != "string" && Lower("Int32") != "guid" by {
      assert Lower("Int32")[0] == 'i';
    }
  }
}
