/**
 * The `def` expression of the evaluator
 * (FJ-VDMJ4 in/expressions/INDefExpression.java): its definitions are bound
 * one after another in a new child scope of the caller's context, and the
 * body is evaluated there. A definition is abstract (`D`); the values it
 * binds, computed in the scope built so far, are the function `namedValues`,
 * and evaluating the body in a scope is the function `body`.
 */
module DefExpressions {
  import opened Runtime

  /**
   * The bindings of the child scope after the definitions `defs`, each
   * evaluated with the outer bindings and the earlier definitions' bindings
   * in view; or the exception of the first definition that escapes.
   */
  function DefScope<D>(outer: map<Name, Value>, defs: seq<D>,
                       namedValues: (D, map<Name, Value>) -> Outcome<seq<(Name, Value)>>)
    : (r: Outcome<map<Name, Value>>)
    ensures defs == [] ==> r == Normal(map[])
    decreases |defs|
  {
    if defs == [] then Normal(map[])
    else
      match DefScope(outer, defs[..|defs| - 1], namedValues)
      case Thrown(x) => Thrown(x)
      case Normal(vars) =>
        match namedValues(defs[|defs| - 1], outer + vars)
        case Thrown(x) => Thrown(x)
        case Normal(pairs) => Normal(PutList(vars, pairs))
  }

  /**
   * `eval`: a fresh child context of `ctxt` receives each definition's
   * bindings in turn, and the body is evaluated in it. The caller's own
   * contexts are not changed.
   */
  method EvalDef<D>(ctxt: Context, defs: seq<D>,
                    namedValues: (D, map<Name, Value>) -> Outcome<seq<(Name, Value)>>,
                    body: map<Name, Value> -> Outcome<Value>)
    returns (r: Outcome<Value>, evalContext: Context)
    requires ctxt.Valid()
    ensures fresh(evalContext) && evalContext.Valid()
    ensures evalContext.parent == ctxt && evalContext.title == "def expression"
    ensures unchanged(ctxt.Repr)
    ensures DefScope(ctxt.Env(), defs, namedValues).Thrown? ==>
      r == Thrown(DefScope(ctxt.Env(), defs, namedValues).exc)
    ensures DefScope(ctxt.Env(), defs, namedValues).Normal? ==>
      evalContext.vars == DefScope(ctxt.Env(), defs, namedValues).value &&
      evalContext.Env() == ctxt.Env() + evalContext.vars &&
      r == body(evalContext.Env())
  {
    evalContext := new Context("def expression", ctxt);
    ghost var outer := ctxt.Env();
    var thrown: Option<RuntimeException> := None;
    var i := 0;
    while i < |defs| && thrown.None?
      invariant 0 <= i <= |defs|
      invariant fresh(evalContext) && evalContext.Valid()
      invariant evalContext.parent == ctxt && evalContext.title == "def expression"
      invariant evalContext !in ctxt.Repr
      invariant unchanged(ctxt.Repr) && ctxt.Env() == outer
      invariant thrown.None? ==> DefScope(outer, defs[..i], namedValues) == Normal(evalContext.vars)
      invariant thrown.Some? ==> DefScope(outer, defs, namedValues) == Thrown(thrown.value)
      decreases |defs| - i, if thrown.None? then 1 else 0
    {
      var env := evalContext.Env();
      assert env == outer + evalContext.vars;
      var pairs := namedValues(defs[i], env);
      DefScopeStep(outer, defs, namedValues, i);
      if pairs.Thrown? {
        DefScopePrefixThrown(outer, defs, namedValues, i + 1);
        thrown := Some(pairs.exc);
      } else {
        evalContext.PutAll(pairs.value);
        i := i + 1;
      }
    }
    if thrown.Some? {
      r := Thrown(thrown.value);
    } else {
      assert defs[..i] == defs;
      r := body(evalContext.Env());
    }
  }

  /** One more definition: its bindings are evaluated in the scope built so far, and added to it. */
  lemma DefScopeStep<D>(outer: map<Name, Value>, defs: seq<D>,
      namedValues: (D, map<Name, Value>) -> Outcome<seq<(Name, Value)>>, i: nat)
    requires i < |defs| && DefScope(outer, defs[..i], namedValues).Normal?
    ensures var vars := DefScope(outer, defs[..i], namedValues).value;
      && (namedValues(defs[i], outer + vars).Thrown? ==>
            DefScope(outer, defs[..i + 1], namedValues) == Thrown(namedValues(defs[i], outer + vars).exc))
      && (namedValues(defs[i], outer + vars).Normal? ==>
            DefScope(outer, defs[..i + 1], namedValues) == Normal(PutList(vars, namedValues(defs[i], outer + vars).value)))
  {
    assert defs[..i + 1][..i] == defs[..i];
    assert defs[..i + 1][i] == defs[i];
  }

  /** Once a prefix of the definitions throws, the whole `def` throws the same exception. */
  lemma {:induction false} DefScopePrefixThrown<D>(outer: map<Name, Value>, defs: seq<D>,
      namedValues: (D, map<Name, Value>) -> Outcome<seq<(Name, Value)>>, k: nat)
    requires k <= |defs| && DefScope(outer, defs[..k], namedValues).Thrown?
    ensures DefScope(outer, defs, namedValues) == DefScope(outer, defs[..k], namedValues)
    decreases |defs| - k
  {
    if k < |defs| {
      assert defs[..k + 1][..k] == defs[..k];
      DefScopePrefixThrown(outer, defs, namedValues, k + 1);
    } else {
      assert defs[..k] == defs;
    }
  }

  /**
   * Bindings are only ever added: when the whole `def` succeeds, every
   * prefix of its definitions succeeded and bound a subset of the names the
   * whole list binds.
   */
  lemma {:induction false} DefScopeGrows<D>(outer: map<Name, Value>, defs: seq<D>,
      namedValues: (D, map<Name, Value>) -> Outcome<seq<(Name, Value)>>, k: nat)
    requires k <= |defs| && DefScope(outer, defs, namedValues).Normal?
    ensures DefScope(outer, defs[..k], namedValues).Normal?
    ensures DefScope(outer, defs[..k], namedValues).value.Keys <= DefScope(outer, defs, namedValues).value.Keys
    decreases |defs| - k
  {
    if k == |defs| {
      assert defs[..k] == defs;
    } else {
      var init := defs[..|defs| - 1];
      assert init[..k] == defs[..k];
      assert DefScope(outer, init, namedValues).Normal?;
      DefScopeGrows(outer, init, namedValues, k);
    }
  }

  /**
   * Later definitions see earlier bindings: a name bound by the j-th
   * definition is visible in the scope in which every later definition is
   * evaluated, and in the scope of the body.
   */
  lemma EarlierBindingsVisible<D>(outer: map<Name, Value>, defs: seq<D>,
      namedValues: (D, map<Name, Value>) -> Outcome<seq<(Name, Value)>>, j: nat, k: nat, n: Name)
    requires j < k <= |defs| && DefScope(outer, defs, namedValues).Normal?
    requires DefScope(outer, defs[..j + 1], namedValues).Normal?
    requires n in DefScope(outer, defs[..j + 1], namedValues).value
    ensures DefScope(outer, defs[..k], namedValues).Normal? && n in DefScope(outer, defs[..k], namedValues).value
    ensures n in outer + DefScope(outer, defs, namedValues).value
  {
    DefScopeGrows(outer, defs, namedValues, k);
    DefScopeGrows(outer, defs[..k], namedValues, j + 1);
    assert defs[..k][..j + 1] == defs[..j + 1];
    DefScopeGrows(outer, defs, namedValues, j + 1);
  }

  /** A name the definitions bind hides any outer binding of it in the body's scope. */
  lemma LocalBindingsHideOuter<D>(outer: map<Name, Value>, defs: seq<D>,
      namedValues: (D, map<Name, Value>) -> Outcome<seq<(Name, Value)>>, n: Name)
    requires DefScope(outer, defs, namedValues).Normal?
    ensures n in DefScope(outer, defs, namedValues).value ==>
      (outer + DefScope(outer, defs, namedValues).value)[n] == DefScope(outer, defs, namedValues).value[n]
    ensures n !in DefScope(outer, defs, namedValues).value && n in outer ==>
      (outer + DefScope(outer, defs, namedValues).value)[n] == outer[n]
  {
  }
}
