/**
 * Record construction `mk_T(e1, ..., en)` of the evaluator
 * (FJ-VDMJ4 in/expressions/INMkTypeExpression.java).
 * Argument expressions are abstract (`E`); evaluating one is the function
 * `ev`, and the unseen record constructor, which checks the field values
 * against the record type, is the function `construct`.
 */
module MkTypeExpressions {
  import opened Runtime

  /** A `mk_` expression: its line, the record type's name and the argument expressions. */
  datatype MkTypeExpression<E> = MkTypeExpression(line: int, recordType: Name, args: seq<E>)

  /**
   * The arguments' values, evaluated left to right, or the exception of the
   * first argument whose evaluation escapes; defined on the prefix so that
   * it follows the evaluation loop step by step.
   */
  function EvalArgs<E>(args: seq<E>, ev: E -> Outcome<Value>): (r: Outcome<seq<Value>>)
    ensures r.Normal? ==> |r.value| == |args|
    decreases |args|
  {
    if args == [] then Normal([])
    else
      match EvalArgs(args[..|args| - 1], ev)
      case Thrown(x) => Thrown(x)
      case Normal(vs) =>
        match ev(args[|args| - 1])
        case Thrown(x) => Thrown(x)
        case Normal(v) => Normal(vs + [v])
  }

  /** The record constructor's verdict: a record, or its value error turned into an abort. */
  function Construct(argvals: seq<Value>, construct: seq<Value> -> Result<Value, ValueError>): (r: Outcome<Value>)
    ensures construct(argvals).Ok? ==> r == Normal(construct(argvals).value)
    ensures construct(argvals).Err? ==> r == Thrown(AbortWith(construct(argvals).error))
  {
    match construct(argvals)
    case Ok(v) => Normal(v)
    case Err(e) => Thrown(AbortWith(e))
  }

  /**
   * `eval`: every argument is evaluated once, left to right, and only then is
   * the record built from the values in the same order. `evaluated` records
   * the arguments in the order they were evaluated.
   */
  method EvalMkType<E>(args: seq<E>, ev: E -> Outcome<Value>, construct: seq<Value> -> Result<Value, ValueError>)
    returns (r: Outcome<Value>, evaluated: seq<E>)
    ensures |evaluated| <= |args| && evaluated == args[..|evaluated|]
    ensures EvalArgs(args, ev).Normal? ==>
      evaluated == args && r == Construct(EvalArgs(args, ev).value, construct)
    ensures EvalArgs(args, ev).Thrown? ==>
      evaluated != [] && r == ev(evaluated[|evaluated| - 1]) && r == Thrown(EvalArgs(args, ev).exc)
  {
    var argvals: seq<Value> := [];
    evaluated := [];
    var i := 0;
    while i < |args|
      invariant 0 <= i <= |args|
      invariant evaluated == args[..i]
      invariant EvalArgs(args[..i], ev) == Normal(argvals)
    {
      var v := ev(args[i]);
      evaluated := evaluated + [args[i]];
      assert args[..i + 1][..i] == args[..i];
      if v.Thrown? {
        EvalArgsPrefixThrown(args, ev, i + 1);
        return Thrown(v.exc), evaluated;
      }
      argvals := argvals + [v.value];
      i := i + 1;
    }
    assert args[..i] == args;
    r := Construct(argvals, construct);
  }

  /** Once a prefix of the arguments throws, the whole list throws the same exception. */
  lemma {:induction false} EvalArgsPrefixThrown<E>(args: seq<E>, ev: E -> Outcome<Value>, k: nat)
    requires k <= |args| && EvalArgs(args[..k], ev).Thrown?
    ensures EvalArgs(args, ev) == EvalArgs(args[..k], ev)
    decreases |args| - k
  {
    if k < |args| {
      assert args[..k + 1][..k] == args[..k];
      EvalArgsPrefixThrown(args, ev, k + 1);
    } else {
      assert args[..k] == args;
    }
  }

  /**
   * The argument list handed to the record constructor: it exists exactly
   * when no argument throws, has one value per argument, and its i-th value
   * is the i-th argument's value.
   */
  lemma {:induction false} EvalArgsValues<E>(args: seq<E>, ev: E -> Outcome<Value>)
    ensures EvalArgs(args, ev).Normal? <==> forall i :: 0 <= i < |args| ==> ev(args[i]).Normal?
    ensures EvalArgs(args, ev).Normal? ==>
      forall i :: 0 <= i < |args| ==> EvalArgs(args, ev).value[i] == ev(args[i]).value
    decreases |args|
  {
    if args != [] {
      var init := args[..|args| - 1];
      EvalArgsValues(init, ev);
      assert forall i :: 0 <= i < |init| ==> init[i] == args[i];
    }
  }

  /**
   * An escaping exception is the one of the first argument that throws: every
   * argument before it evaluated normally.
   */
  lemma {:induction false} EvalArgsFirstThrow<E>(args: seq<E>, ev: E -> Outcome<Value>)
    requires EvalArgs(args, ev).Thrown?
    ensures exists k :: 0 <= k < |args| && ev(args[k]) == Thrown(EvalArgs(args, ev).exc) &&
                        (forall j :: 0 <= j < k ==> ev(args[j]).Normal?)
    decreases |args|
  {
    var init := args[..|args| - 1];
    if EvalArgs(init, ev).Thrown? {
      EvalArgsFirstThrow(init, ev);
      var k :| 0 <= k < |init| && ev(init[k]) == Thrown(EvalArgs(init, ev).exc) &&
               (forall j :: 0 <= j < k ==> ev(init[j]).Normal?);
      assert init[k] == args[k];
      assert forall j :: 0 <= j < k ==> init[j] == args[j];
    } else {
      EvalArgsValues(init, ev);
      assert forall j :: 0 <= j < |init| ==> init[j] == args[j];
    }
  }

  /** `INExpressionList.findExpression`: the first argument in which `find` finds something. */
  function FindInArgs<E>(args: seq<E>, lineno: int, find: (E, int) -> Option<E>): (r: Option<E>)
    ensures r.Some? <==> exists i :: 0 <= i < |args| && find(args[i], lineno).Some?
    ensures r.Some? ==> exists i :: 0 <= i < |args| && r == find(args[i], lineno) &&
                                    (forall j :: 0 <= j < i ==> find(args[j], lineno).None?)
  {
    if args == [] then None
    else if find(args[0], lineno).Some? then find(args[0], lineno)
    else
      var r := FindInArgs(args[1..], lineno, find);
      assert forall i :: 0 < i < |args| ==> args[1..][i - 1] == args[i];
      assert r.Some? ==> exists i :: 0 < i < |args| && r == find(args[i], lineno) &&
                                     (forall j :: 0 <= j < i ==> find(args[j], lineno).None?)
      by {
        if r.Some? {
          var i :| 0 <= i < |args[1..]| && r == find(args[1..][i], lineno) &&
                   (forall j :: 0 <= j < i ==> find(args[1..][j], lineno).None?);
          assert forall j :: 0 < j < i + 1 ==> args[j] == args[1..][j - 1];
        }
      }
      r
  }

  /**
   * `findExpression`: the expression itself when it starts on the line,
   * otherwise the first match among its arguments.
   */
  function FindExpression<E>(self: E, m: MkTypeExpression<E>, lineno: int, find: (E, int) -> Option<E>): (r: Option<E>)
    ensures m.line == lineno ==> r == Some(self)
    ensures r.Some? <==> m.line == lineno || exists i :: 0 <= i < |m.args| && find(m.args[i], lineno).Some?
    ensures m.line != lineno && r.Some? ==>
      exists i :: 0 <= i < |m.args| && r == find(m.args[i], lineno) &&
        (forall j :: 0 <= j < i ==> find(m.args[j], lineno).None?)
  {
    if m.line == lineno then Some(self) else FindInArgs(m.args, lineno, find)
  }

  /** `getValues`: the arguments' values, each argument's in turn. */
  function GetValues<E>(m: MkTypeExpression<E>, valuesOf: E -> seq<Value>): (vs: seq<Value>)
    ensures forall v :: v in vs ==> exists i :: 0 <= i < |m.args| && v in valuesOf(m.args[i])
  {
    var vs := ConcatMap(m.args, valuesOf);
    assert forall v :: v in vs ==> exists i :: 0 <= i < |m.args| && v in valuesOf(m.args[i]) by {
      forall v | v in vs
        ensures exists i :: 0 <= i < |m.args| && v in valuesOf(m.args[i])
      {
        ConcatMapMember(m.args, valuesOf, v);
      }
    }
    vs
  }

  /** `getOldNames`: the `~` names of the arguments, each argument's in turn. */
  function GetOldNames<E>(m: MkTypeExpression<E>, oldNamesOf: E -> seq<Name>): (ns: seq<Name>)
    ensures forall n :: n in ns <==> exists i :: 0 <= i < |m.args| && n in oldNamesOf(m.args[i])
  {
    var ns := ConcatMap(m.args, oldNamesOf);
    assert forall n :: n in ns <==> exists i :: 0 <= i < |m.args| && n in oldNamesOf(m.args[i]) by {
      forall n
        ensures n in ns <==> exists i :: 0 <= i < |m.args| && n in oldNamesOf(m.args[i])
      {
        ConcatMapMember(m.args, oldNamesOf, n);
      }
    }
    ns
  }

  /**
   * The values and the old names are in argument order: each argument's
   * contribution sits between those of the arguments before it and those of
   * the arguments after it.
   */
  lemma ContributionsInArgumentOrder<E>(m: MkTypeExpression<E>, valuesOf: E -> seq<Value>,
                                        oldNamesOf: E -> seq<Name>, i: nat)
    requires i < |m.args|
    ensures GetValues(m, valuesOf) ==
      GetValues(m.(args := m.args[..i]), valuesOf) + valuesOf(m.args[i]) +
      GetValues(m.(args := m.args[i + 1..]), valuesOf)
    ensures GetOldNames(m, oldNamesOf) ==
      GetOldNames(m.(args := m.args[..i]), oldNamesOf) + oldNamesOf(m.args[i]) +
      GetOldNames(m.(args := m.args[i + 1..]), oldNamesOf)
  {
    var before, here, after := m.args[..i], [m.args[i]], m.args[i + 1..];
    assert m.args == before + (here + after);
    assert here[1..] == [];
    ConcatMapAppend(before, here + after, valuesOf);
    ConcatMapAppend(here, after, valuesOf);
    ConcatMapAppend(before, here + after, oldNamesOf);
    ConcatMapAppend(here, after, oldNamesOf);
  }

  /**
   * `getValues` and `getOldNames` come from the arguments alone: the record
   * type and the line do not matter, and every argument's contribution is
   * present.
   */
  lemma ValuesComeFromArgs<E>(m: MkTypeExpression<E>, t: Name, line: int,
                              valuesOf: E -> seq<Value>, oldNamesOf: E -> seq<Name>)
    ensures GetValues(m, valuesOf) == GetValues(MkTypeExpression(line, t, m.args), valuesOf)
    ensures GetOldNames(m, oldNamesOf) == GetOldNames(MkTypeExpression(line, t, m.args), oldNamesOf)
    ensures forall i, v :: 0 <= i < |m.args| && v in valuesOf(m.args[i]) ==> v in GetValues(m, valuesOf)
  {
    forall i, v | 0 <= i < |m.args| && v in valuesOf(m.args[i])
      ensures v in GetValues(m, valuesOf)
    {
      ConcatMapMember(m.args, valuesOf, v);
    }
  }
}
