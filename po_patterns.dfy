/**
 * Identifier and integer patterns of the proof-obligation stage
 * (FJ-VDMJ4 po/patterns/POIdentifierPattern.java, POIntegerPattern.java).
 * Every query answers with a fresh constant or singleton built from the
 * pattern's own token.
 */
module POPatterns {
  import opened Runtime

  datatype Location = Location(file: string, startLine: int, startPos: int)

  /** The lexer's integer token: its value and where it was read. */
  datatype LexIntegerToken = LexIntegerToken(value: int, location: Location)

  /** A pattern's length: the special "any length", or a fixed count. */
  datatype PatternLength = AnyLength | FixedLength(n: nat)

  /** A local definition of one name at one type. */
  datatype POLocalDefinition = POLocalDefinition(location: Location, name: Name, ptype: TCType)

  /** The expressions a pattern can be turned back into. */
  datatype POExpression =
    | POVariableExpression(name: Name, vardef: Option<POLocalDefinition>)
    | POIntegerLiteralExpression(token: LexIntegerToken)

  datatype POIdentifierPattern = POIdentifierPattern(name: Name, location: Location)
  {
    function GetLength(): (n: PatternLength)
    {
      AnyLength
    }

    function ToString(): (s: string)
    {
      name
    }

    function GetAllDefinitions(ptype: TCType): (defs: seq<POLocalDefinition>)
    {
      [POLocalDefinition(location, name, ptype)]
    }

    function GetAllVariableNames(): (names: seq<Name>)
    {
      [name]
    }

    function GetPossibleType(): (t: TCType)
    {
      UnknownType
    }

    function GetMatchingExpression(): (e: POExpression)
    {
      POVariableExpression(name, None)
    }

    function IsSimple(): (b: bool)
    {
      false
    }

    function AlwaysMatches(): (b: bool)
    {
      true
    }
  }

  datatype POIntegerPattern = POIntegerPattern(token: LexIntegerToken)
  {
    /** The printed form is the literal token's printed form, supplied as `showToken`. */
    function ToString(showToken: LexIntegerToken -> string): (s: string)
    {
      showToken(token)
    }

    function GetAllDefinitions(ptype: TCType): (defs: seq<POLocalDefinition>)
    {
      []
    }

    /** The numeric type the type checker chooses for the literal's value, supplied as `typeOf`. */
    function GetPossibleType(typeOf: int -> TCType): (t: TCType)
    {
      typeOf(token.value)
    }

    function GetMatchingExpression(): (e: POExpression)
    {
      POIntegerLiteralExpression(token)
    }
  }

  /** The names a list of definitions defines, in order. */
  function DefinedNames(defs: seq<POLocalDefinition>): (names: seq<Name>)
    ensures |names| == |defs|
    ensures forall i :: 0 <= i < |defs| ==> names[i] == defs[i].name
  {
    if defs == [] then [] else [defs[0].name] + DefinedNames(defs[1..])
  }

  /**
   * The facts an identifier pattern reports agree with each other: at any
   * type it yields exactly one definition, of its own name at that type and
   * place; that definition defines exactly its variable names; its matching
   * expression and printed form are that same name; it matches any value of
   * any length, and it is not simple.
   */
  lemma IdentifierPatternConsistent(p: POIdentifierPattern, ptype: TCType)
    ensures |p.GetAllDefinitions(ptype)| == 1
    ensures p.GetAllDefinitions(ptype)[0].ptype == ptype && p.GetAllDefinitions(ptype)[0].location == p.location
    ensures DefinedNames(p.GetAllDefinitions(ptype)) == p.GetAllVariableNames() == [p.ToString()]
    ensures p.GetMatchingExpression().POVariableExpression?
    ensures [p.GetMatchingExpression().name] == p.GetAllVariableNames()
    ensures p.GetMatchingExpression().vardef.None? && p.GetPossibleType() == UnknownType
    ensures p.AlwaysMatches() && !p.IsSimple() && p.GetLength().AnyLength?
  {
    assert DefinedNames(p.GetAllDefinitions(ptype))[0] == p.name;
  }

  /**
   * An integer pattern defines no names at any type, and everything it
   * reports depends only on its token: its matching expression is the
   * literal of that token, and two patterns over the same value agree on the
   * possible type.
   */
  lemma IntegerPatternDependsOnToken(p: POIntegerPattern, q: POIntegerPattern, t1: TCType, t2: TCType, typeOf: int -> TCType, showToken: LexIntegerToken -> string)
    requires p.token.value == q.token.value
    ensures DefinedNames(p.GetAllDefinitions(t1)) == DefinedNames(q.GetAllDefinitions(t2)) == []
    ensures p.GetPossibleType(typeOf) == q.GetPossibleType(typeOf) == typeOf(p.token.value)
    ensures p.GetMatchingExpression() == POIntegerLiteralExpression(p.token)
    ensures p.token == q.token ==> p.ToString(showToken) == q.ToString(showToken)
  {
  }
}
