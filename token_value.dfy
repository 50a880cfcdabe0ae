/**
 * Token values: a wrapper around another value, compared and hashed
 * by the value it wraps (FJ-VDMJ4 values/TokenValue.java).
 */
module TokenValues {
  import opened Runtime

  /** A token as the constructor leaves it: the wrapped value is already dereferenced. */
  type TokenValue = v: Value | v.TokenV? && !v.wrapped.RefV? witness TokenV(VoidV)

  /** Java's `equals` accepts any object, not only values. */
  datatype JavaObject = AValue(v: Value) | NotAValue

  /** `new TokenValue(exp)`: the wrapped value is stored dereferenced. */
  function MkToken(exp: Value): (t: TokenValue)
    ensures t.wrapped == Deref(exp)
    ensures exp.RefV? ==> t == MkToken(exp.target)
  {
    TokenV(Deref(exp))
  }

  /** `equals`: another object is equal iff it is a value whose deref is a token wrapping an equal value. */
  function Equals(t: TokenValue, other: JavaObject): bool
  {
    other.AValue? && Deref(other.v).TokenV? && Deref(other.v).wrapped == t.wrapped
  }

  /** `hashCode`: the wrapped value's own hash, supplied as `hashOf`. */
  function Hash(t: TokenValue, hashOf: Value -> int): int
  {
    hashOf(t.wrapped)
  }

  /** `toString`. */
  function ToString(t: TokenValue, show: Value -> string): (s: string)
    ensures |s| == 10 + |show(t.wrapped)|
    ensures s[..9] == "mk_token(" && s[9..|s| - 1] == show(t.wrapped) && s[|s| - 1] == ')'
  {
    "mk_token(" + show(t.wrapped) + ")"
  }

  /** `kind()`: the diagnostic tag of a token is its printed form. */
  function Kind(t: TokenValue, show: Value -> string): (s: string)
    ensures |s| == 10 + |show(t.wrapped)|
    ensures s[..9] == "mk_token(" && s[9..|s| - 1] == show(t.wrapped) && s[|s| - 1] == ')'
  {
    ToString(t, show)
  }

  /**
   * `convertValueTo`: a conversion to the token type returns the token itself;
   * any other target goes to the general conversion of values, `baseConvert`.
   */
  function ConvertValueTo(t: TokenValue, to: TCType, baseConvert: (Value, TCType) -> Result<Value, ValueError>)
    : (r: Result<Value, ValueError>)
    ensures to == TokenType ==> r == Ok(t)
    ensures to != TokenType ==> r == baseConvert(t, to)
  {
    if to == TokenType then Ok(t) else baseConvert(t, to)
  }

  /** `clone`: a new token over the same wrapped value. */
  function Clone(t: TokenValue): (c: TokenValue)
    ensures c.wrapped == t.wrapped
  {
    MkToken(t.wrapped)
  }

  /** A token never equals an object that is not a value. */
  lemma NotAValueNeverEqual(t: TokenValue)
    ensures !Equals(t, NotAValue)
  {
  }

  /**
   * Token equality is equality of the wrapped values: a token equals a value
   * exactly when that value dereferences to a token wrapping the same value,
   * however many reference wrappers stand around it.
   */
  lemma {:induction false} EqualsIsWrappedEquality(t: TokenValue, u: Value)
    ensures Equals(t, AValue(u)) <==> Deref(u) == t
    ensures Equals(t, AValue(RefV(u))) <==> Equals(t, AValue(u))
  {
  }

  /** Equality of tokens is reflexive, symmetric and transitive. */
  lemma EqualsIsEquivalence(a: TokenValue, b: TokenValue, c: TokenValue)
    ensures Equals(a, AValue(a))
    ensures Equals(a, AValue(b)) ==> Equals(b, AValue(a))
    ensures Equals(a, AValue(b)) && Equals(b, AValue(c)) ==> Equals(a, AValue(c))
  {
  }

  /** Equal tokens have equal hashes, for any hash of the wrapped values. */
  lemma EqualTokensHashEqually(a: TokenValue, u: Value, hashOf: Value -> int)
    requires Equals(a, AValue(u))
    ensures Hash(a, hashOf) == Hash(Deref(u), hashOf)
  {
  }

  /** A clone equals its original, in both directions, and hashes the same. */
  lemma CloneEqualsOriginal(t: TokenValue, hashOf: Value -> int)
    ensures Equals(t, AValue(Clone(t))) && Equals(Clone(t), AValue(t))
    ensures Hash(Clone(t), hashOf) == Hash(t, hashOf)
  {
  }

  /**
   * A conversion to the token type succeeds whatever the general conversion
   * does, and gives back a token equal to the original, in both directions.
   */
  lemma ConversionToTokenIsIdentity(t: TokenValue, baseConvert: (Value, TCType) -> Result<Value, ValueError>)
    ensures ConvertValueTo(t, TokenType, baseConvert).Ok?
    ensures Deref(ConvertValueTo(t, TokenType, baseConvert).value) == t
    ensures Equals(t, AValue(ConvertValueTo(t, TokenType, baseConvert).value))
  {
  }

  /** Wrapping a reference gives the same token as wrapping what it refers to. */
  lemma {:induction false} MkTokenDerefs(exp: Value)
    ensures MkToken(exp) == MkToken(Deref(exp))
    ensures Equals(MkToken(exp), AValue(MkToken(Deref(exp))))
  {
  }
}
