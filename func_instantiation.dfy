/**
 * Instantiation of a polymorphic function, `f[T1, ..., Tn]`
 * (FJ-VDMJ4 in/expressions/INFuncInstantiationExpression.java).
 * The function expression's outcome is an input. The resolution of `@`
 * types (`Instantiate.instantiate`) is the function `resolve`, and the
 * definition's cached polymorphic value (`getPolymorphicValue`) is the
 * function `polymorphic`.
 */
module FuncInstantiation {
  import opened Runtime

  /** The source text that `Instantiate.instantiate` is applied to: one that mentions '@'. */
  predicate MentionsTypeParameter(t: TCType)
  {
    '@' in t.Text()
  }

  /** One actual type, resolved only when its text mentions '@'. */
  function ResolveType(t: TCType, resolve: TCType -> Result<TCType, ValueError>): (r: Result<TCType, ValueError>)
    ensures !MentionsTypeParameter(t) ==> r == Ok(t)
    ensures MentionsTypeParameter(t) ==> r == resolve(t)
  {
    if MentionsTypeParameter(t) then resolve(t) else Ok(t)
  }

  /** The type parameter names: from the explicit definition when there is one, else from the implicit one. */
  function ParamNames(expdef: Option<seq<Name>>, impdef: Option<seq<Name>>): (names: seq<Name>)
    requires expdef.Some? || impdef.Some?
    ensures expdef.Some? ==> names == expdef.value
    ensures expdef.None? ==> names == impdef.value
  {
    if expdef.Some? then expdef.value else impdef.value
  }

  /**
   * The argument types the loop collects, index by index: at each index the
   * parameter name is fetched first (an index past the names fails as Java's
   * list access does), then the type is resolved.
   */
  function ArgTypes(actualTypes: seq<TCType>, paramNames: seq<Name>,
                    resolve: TCType -> Result<TCType, ValueError>): (r: Result<seq<TCType>, RuntimeException>)
    ensures r.Ok? ==> |r.value| == |actualTypes|
    decreases |actualTypes|
  {
    if actualTypes == [] then Ok([])
    else
      var i := |actualTypes| - 1;
      match ArgTypes(actualTypes[..i], paramNames, resolve)
      case Err(x) => Err(x)
      case Ok(ts) =>
        if i >= |paramNames| then Err(OtherException("IndexOutOfBoundsException"))
        else
          match ResolveType(actualTypes[i], resolve)
          case Err(e) => Err(AbortWith(e))
          case Ok(t) => Ok(ts + [t])
  }

  /** The parameter bindings the loop puts: the i-th name to the i-th argument type. */
  function ParamBindings(paramNames: seq<Name>, argtypes: seq<TCType>): (pairs: seq<(Name, Value)>)
    requires |argtypes| <= |paramNames|
    ensures |pairs| == |argtypes|
    ensures forall i :: 0 <= i < |argtypes| ==> pairs[i] == (paramNames[i], ParameterV(argtypes[i]))
  {
    seq(|argtypes|, i requires 0 <= i < |argtypes| => (paramNames[i], ParameterV(argtypes[i])))
  }

  /**
   * `eval`. A function value that is already instantiated aborts with 3034.
   * Otherwise a fresh context without a parent binds each type parameter to
   * its actual type, and the definition's polymorphic value for those types
   * is returned, taking `self` from the original function value and marked
   * instantiated. A coercion or resolution failure aborts.
   */
  method EvalFuncInstantiation(fn: Outcome<Value>, actualTypes: seq<TCType>,
                               expdef: Option<seq<Name>>, impdef: Option<seq<Name>>,
                               resolve: TCType -> Result<TCType, ValueError>,
                               polymorphic: (seq<TCType>, map<Name, Value>) -> Result<FunctionValue, ValueError>)
    returns (r: Outcome<Value>, params: Context?)
    requires expdef.Some? || impdef.Some?
    ensures fn.Thrown? ==> r == fn
    ensures fn.Normal? && FunctionValueOf(fn.value).Err? ==>
      r == Thrown(AbortWith(FunctionValueOf(fn.value).error))
    ensures fn.Normal? && FunctionValueOf(fn.value).Ok? && !FunctionValueOf(fn.value).value.uninstantiated ==>
      r == Thrown(Abort(3034, "Function is already instantiated: " + FunctionValueOf(fn.value).value.name))
    ensures fn.Normal? && FunctionValueOf(fn.value).Ok? && FunctionValueOf(fn.value).value.uninstantiated ==>
      var fv := FunctionValueOf(fn.value).value;
      var names := ParamNames(expdef, impdef);
      match ArgTypes(actualTypes, names, resolve)
      case Err(x) => r == Thrown(x)
      case Ok(argtypes) =>
        params != null && fresh(params) && params.Valid() && params.parent == null &&
        params.vars == PutList(map[], ParamBindings(names, argtypes)) &&
        match polymorphic(argtypes, params.vars)
        case Err(e) => r == Thrown(AbortWith(e))
        case Ok(rv) => r == Normal(FuncV(rv.(self := fv.self, uninstantiated := false)))
    ensures r.Normal? ==>
      fn.Normal? && FunctionValueOf(fn.value).Ok? && r.value.FuncV? &&
      !r.value.fv.uninstantiated && r.value.fv.self == FunctionValueOf(fn.value).value.self
  {
    params := null;
    if fn.Thrown? {
      return fn, params;
    }
    var fvr := FunctionValueOf(fn.value);
    if fvr.Err? {
      return Thrown(AbortWith(fvr.error)), params;
    }
    var fv := fvr.value;
    if !fv.uninstantiated {
      return Thrown(Abort(3034, "Function is already instantiated: " + fv.name)), params;
    }
    var paramNames := if expdef.Some? then expdef.value else impdef.value;
    var argtypes, ps := BindParams(actualTypes, paramNames, resolve);
    if argtypes.Err? {
      return Thrown(argtypes.error), params;
    }
    params := ps;
    var rv := polymorphic(argtypes.value, ps.vars);
    if rv.Err? {
      return Thrown(AbortWith(rv.error)), params;
    }
    r := Normal(FuncV(rv.value.(self := fv.self, uninstantiated := false)));
  }

  /**
   * The loop of `eval` over the actual types: a fresh context without a
   * parent, named "Instantiation params", into which each type parameter is
   * put with its resolved actual type. The outcome is `ArgTypes`; on
   * success the context binds exactly the collected parameters.
   */
  method BindParams(actualTypes: seq<TCType>, paramNames: seq<Name>, resolve: TCType -> Result<TCType, ValueError>)
    returns (argtypes: Result<seq<TCType>, RuntimeException>, ps: Context)
    ensures fresh(ps) && ps.Valid() && ps.parent == null
    ensures argtypes == ArgTypes(actualTypes, paramNames, resolve)
    ensures argtypes.Ok? ==>
      |argtypes.value| <= |paramNames| && ps.vars == PutList(map[], ParamBindings(paramNames, argtypes.value))
  {
    ps := new Context("Instantiation params", null);
    var ts: seq<TCType> := [];
    var i := 0;
    while i < |actualTypes|
      invariant 0 <= i <= |actualTypes|
      invariant fresh(ps) && ps.Valid() && ps.parent == null
      invariant ArgTypes(actualTypes[..i], paramNames, resolve) == Ok(ts)
      invariant |ts| == i <= |paramNames|
      invariant ps.vars == PutList(map[], ParamBindings(paramNames, ts))
    {
      assert actualTypes[..i + 1][..i] == actualTypes[..i];
      assert actualTypes[..i + 1][i] == actualTypes[i];
      if i >= |paramNames| {
        ArgTypesPrefixFails(actualTypes, paramNames, resolve, i + 1);
        return Err(OtherException("IndexOutOfBoundsException")), ps;
      }
      var pname := paramNames[i];
      var ptype := ResolveType(actualTypes[i], resolve);
      if ptype.Err? {
        ArgTypesPrefixFails(actualTypes, paramNames, resolve, i + 1);
        return Err(AbortWith(ptype.error)), ps;
      }
      PutListSnoc(map[], ParamBindings(paramNames, ts), (pname, ParameterV(ptype.value)));
      assert ParamBindings(paramNames, ts + [ptype.value]) ==
             ParamBindings(paramNames, ts) + [(pname, ParameterV(ptype.value))];
      ts := ts + [ptype.value];
      ps.Put(pname, ParameterV(ptype.value));
      i := i + 1;
    }
    assert actualTypes[..i] == actualTypes;
    argtypes := Ok(ts);
  }

  /** Putting one more pair is the same as appending it to the list put. */
  lemma {:induction false} PutListSnoc(vars: map<Name, Value>, pairs: seq<(Name, Value)>, p: (Name, Value))
    ensures PutList(vars, pairs + [p]) == PutList(vars, pairs)[p.0 := p.1]
    decreases |pairs|
  {
    if pairs == [] {
      assert [] + [p] == [p];
      assert [p][1..] == [];
    } else {
      assert (pairs + [p])[1..] == pairs[1..] + [p];
      PutListSnoc(vars[pairs[0].0 := pairs[0].1], pairs[1..], p);
    }
  }

  /** Once a prefix of the actual types fails, the whole list fails the same way. */
  lemma {:induction false} ArgTypesPrefixFails(actualTypes: seq<TCType>, paramNames: seq<Name>,
      resolve: TCType -> Result<TCType, ValueError>, k: nat)
    requires k <= |actualTypes| && ArgTypes(actualTypes[..k], paramNames, resolve).Err?
    ensures ArgTypes(actualTypes, paramNames, resolve) == ArgTypes(actualTypes[..k], paramNames, resolve)
    decreases |actualTypes| - k
  {
    if k < |actualTypes| {
      assert actualTypes[..k + 1][..k] == actualTypes[..k];
      ArgTypesPrefixFails(actualTypes, paramNames, resolve, k + 1);
    } else {
      assert actualTypes[..k] == actualTypes;
    }
  }

  /**
   * The collected argument types keep the order and length of the actual
   * types; a type is replaced by its resolution only when its text mentions
   * '@', and is kept as it is otherwise. Collection succeeds exactly when
   * there are enough parameter names and every needed resolution succeeds.
   */
  lemma {:induction false} ArgTypesShape(actualTypes: seq<TCType>, paramNames: seq<Name>,
      resolve: TCType -> Result<TCType, ValueError>)
    ensures ArgTypes(actualTypes, paramNames, resolve).Ok? <==>
      |actualTypes| <= |paramNames| &&
      forall i :: 0 <= i < |actualTypes| ==> ResolveType(actualTypes[i], resolve).Ok?
    ensures ArgTypes(actualTypes, paramNames, resolve).Ok? ==>
      forall i :: 0 <= i < |actualTypes| ==>
        ArgTypes(actualTypes, paramNames, resolve).value[i] == ResolveType(actualTypes[i], resolve).value &&
        (!MentionsTypeParameter(actualTypes[i]) ==> ArgTypes(actualTypes, paramNames, resolve).value[i] == actualTypes[i])
    decreases |actualTypes|
  {
    if actualTypes != [] {
      var init := actualTypes[..|actualTypes| - 1];
      ArgTypesShape(init, paramNames, resolve);
      assert forall i :: 0 <= i < |init| ==> init[i] == actualTypes[i];
    }
  }

  /**
   * With distinct type parameter names, the parameter context binds the i-th
   * name to the i-th argument type and binds nothing else.
   */
  lemma ParamContextBindsIth(paramNames: seq<Name>, argtypes: seq<TCType>)
    requires |argtypes| <= |paramNames|
    requires forall i, j :: 0 <= i < j < |paramNames| ==> paramNames[i] != paramNames[j]
    ensures PutList(map[], ParamBindings(paramNames, argtypes)).Keys == set i | 0 <= i < |argtypes| :: paramNames[i]
    ensures forall i :: 0 <= i < |argtypes| ==>
      PutList(map[], ParamBindings(paramNames, argtypes))[paramNames[i]] == ParameterV(argtypes[i])
  {
    var pairs := ParamBindings(paramNames, argtypes);
    assert (set i | 0 <= i < |pairs| :: pairs[i].0) == set i | 0 <= i < |argtypes| :: paramNames[i];
    forall i | 0 <= i < |argtypes|
      ensures PutList(map[], pairs)[paramNames[i]] == ParameterV(argtypes[i])
    {
      PutListDistinct(map[], pairs, i);
    }
  }

  /** With distinct names in the pairs, each pair's value is what the name ends up bound to. */
  lemma {:induction false} PutListDistinct(vars: map<Name, Value>, pairs: seq<(Name, Value)>, i: nat)
    requires i < |pairs|
    requires forall a, b :: 0 <= a < b < |pairs| ==> pairs[a].0 != pairs[b].0
    ensures pairs[i].0 in PutList(vars, pairs) && PutList(vars, pairs)[pairs[i].0] == pairs[i].1
    decreases |pairs|
  {
    if i == 0 {
      PutListKeeps(vars[pairs[0].0 := pairs[0].1], pairs[1..], pairs[0].0);
    } else {
      PutListDistinct(vars[pairs[0].0 := pairs[0].1], pairs[1..], i - 1);
    }
  }

  /** A name that no pair mentions keeps its binding. */
  lemma {:induction false} PutListKeeps(vars: map<Name, Value>, pairs: seq<(Name, Value)>, n: Name)
    requires n in vars
    requires forall a :: 0 <= a < |pairs| ==> pairs[a].0 != n
    ensures n in PutList(vars, pairs) && PutList(vars, pairs)[n] == vars[n]
    decreases |pairs|
  {
    if pairs != [] {
      PutListKeeps(vars[pairs[0].0 := pairs[0].1], pairs[1..], n);
    }
  }

  /**
   * `findExpression`: the expression itself when it starts on the line,
   * otherwise whatever the function expression finds.
   */
  function FindExpression<E>(self: E, line: int, fn: E, lineno: int, find: (E, int) -> Option<E>): (r: Option<E>)
    ensures line == lineno ==> r == Some(self)
    ensures r.Some? <==> line == lineno || find(fn, lineno).Some?
    ensures r.Some? && r != Some(self) ==> r == find(fn, lineno)
  {
    if line == lineno then Some(self) else find(fn, lineno)
  }

  /** `getValues` and `getOldNames` are the function expression's own. */
  function GetValues<E>(fn: E, valuesOf: E -> seq<Value>): (vs: seq<Value>)
  {
    valuesOf(fn)
  }
}
