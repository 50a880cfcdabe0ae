/**
 * Boolean and character literal patterns of the interpreter stage
 * (FJ-VDMJ4 in/patterns/INBooleanPattern.java, INCharacterPattern.java).
 * A literal matches by equality only: success yields exactly one, empty,
 * binding list; anything else is a pattern failure.
 */
module LiteralPatterns {
  import opened Runtime

  /** One binding environment, as the matcher returns it. */
  type NameValuePairList = seq<(Name, Value)>

  /** Why a pattern did not match: its own numbered failure, or the value error that stopped it. */
  datatype PatternFailure =
    | PatternFail(number: int, message: string)
    | PatternFailFrom(error: ValueError)

  datatype BooleanPattern = BooleanPattern(value: bool)

  /** The literal keeps its character's code point, as the lexer's token does. */
  datatype CharacterPattern = CharacterPattern(unicode: int)

  /** `getAllNamedValues` of a boolean pattern. */
  function MatchBoolean(p: BooleanPattern, expval: Value): (r: Result<seq<NameValuePairList>, PatternFailure>)
    ensures r.Ok? ==> r.value == [[]]
    ensures BoolValue(expval).Ok? && r.Err? ==> r.error == PatternFail(4106, "Boolean pattern match failed")
    ensures BoolValue(expval).Err? ==> r == Err(PatternFailFrom(BoolValue(expval).error))
  {
    match BoolValue(expval)
    case Err(e) => Err(PatternFailFrom(e))
    case Ok(b) =>
      if b != p.value then Err(PatternFail(4106, "Boolean pattern match failed"))
      else Ok([[]])
  }

  /** `getPossibleType` of a boolean pattern. */
  function BooleanPossibleType(p: BooleanPattern): (t: TCType)
  {
    BooleanType
  }

  /** `getAllNamedValues` of a character pattern. */
  function MatchCharacter(p: CharacterPattern, expval: Value): (r: Result<seq<NameValuePairList>, PatternFailure>)
    ensures r.Ok? ==> r.value == [[]]
    ensures CharValue(expval).Ok? && r.Err? ==> r.error == PatternFail(4107, "Character pattern match failed")
    ensures CharValue(expval).Err? ==> r == Err(PatternFailFrom(CharValue(expval).error))
  {
    match CharValue(expval)
    case Err(e) => Err(PatternFailFrom(e))
    case Ok(c) =>
      if c as int != p.unicode then Err(PatternFail(4107, "Character pattern match failed"))
      else Ok([[]])
  }

  /** `getPossibleType` of a character pattern. */
  function CharacterPossibleType(p: CharacterPattern): (t: TCType)
  {
    CharacterType
  }

  /**
   * A boolean pattern matches exactly the values that dereference to its own
   * literal; a value of another kind fails as a pattern failure and a boolean
   * of the other truth value fails with 4106. No name is ever bound, and a
   * matched value is always of the pattern's possible type.
   */
  lemma BooleanMatchIffEqual(p: BooleanPattern, v: Value)
    ensures MatchBoolean(p, v).Ok? <==> Deref(v) == BoolV(p.value)
    ensures Deref(v) == BoolV(!p.value) ==> MatchBoolean(p, v) == Err(PatternFail(4106, "Boolean pattern match failed"))
    ensures !Deref(v).BoolV? ==> MatchBoolean(p, v).Err? && MatchBoolean(p, v).error.PatternFailFrom?
    ensures MatchBoolean(p, v).Ok? ==> forall env :: env in MatchBoolean(p, v).value ==> env == []
    ensures MatchBoolean(p, v).Ok? ==> Deref(v).BoolV? && BooleanPossibleType(p) == BooleanType
  {
  }

  /**
   * A character pattern matches exactly the values that dereference to the
   * character whose code point is the literal's; another character fails
   * with 4107, a value of another kind as a pattern failure. A matched value
   * is always of the pattern's possible type.
   */
  lemma CharacterMatchIffEqual(p: CharacterPattern, v: Value)
    ensures MatchCharacter(p, v).Ok? <==> Deref(v).CharV? && Deref(v).c as int == p.unicode
    ensures Deref(v).CharV? && Deref(v).c as int != p.unicode ==>
      MatchCharacter(p, v) == Err(PatternFail(4107, "Character pattern match failed"))
    ensures !Deref(v).CharV? ==> MatchCharacter(p, v).Err? && MatchCharacter(p, v).error.PatternFailFrom?
    ensures MatchCharacter(p, v).Ok? ==> forall env :: env in MatchCharacter(p, v).value ==> env == []
    ensures MatchCharacter(p, v).Ok? ==> Deref(v).CharV? && CharacterPossibleType(p) == CharacterType
  {
  }

  /** A code point outside the character range is never matched. */
  lemma CharacterOutOfRangeNeverMatches(p: CharacterPattern, v: Value)
    requires p.unicode < 0
    ensures MatchCharacter(p, v).Err?
  {
  }
}
