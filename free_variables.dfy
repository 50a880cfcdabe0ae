/**
 * The free-variable analysis of type-checked expressions
 * (FJ-VDMJ4 tc/expressions/TCGetFreeVariablesVisitor.java): the names an
 * expression depends on when it is evaluated unconditionally, used to order
 * the initialisation of definitions. The analysis is given the global
 * environment and the local one; a name bound locally is not free, a global
 * function is not a dependency, and a global rename stands for the name it
 * renames. Sub-expressions that are evaluated only conditionally (the right
 * operand of `and`, the branches of `if` and `cases`, a lambda's body, a
 * comprehension's element and predicate) are not analysed.
 */
module FreeVariables {
  import opened Runtime

  /** What the global environment holds for a name: a plain definition, or a rename of another (named or not). */
  datatype GlobalDef =
    | Plain(isFunction: bool)
    | Renamed(isFunction: bool, target: Option<Name>)

  type Globals = map<Name, GlobalDef>

  /** A bind: over the values of a set or sequence expression, or over a type (known by the type names it mentions). */
  datatype Bind =
    | SetBind(setExp: TCExp)
    | SeqBind(seqExp: TCExp)
    | TypeBind(typeNames: set<Name>)

  /** A local definition of a `let` or `def`: an explicit function, or another definition binding names to an expression. */
  datatype LocalDef =
    | ExplicitFunctionDef(name: Name)
    | OtherDef(defined: set<Name>, exp: TCExp)

  /**
   * The expression kinds the analysis distinguishes. `bound` holds the
   * names a binding construct defines. `Leaf` is an expression without
   * sub-expressions; `Compound` is any other kind without a rule of its own.
   */
  datatype TCExp =
    | Apply(root: TCExp, functionTyped: bool, args: seq<TCExp>)
    | BooleanBinary(left: TCExp, right: TCExp)
    | Cases(exp: TCExp, alternatives: seq<TCExp>)
    | Exists1(bound: set<Name>, bind: Bind, pred: TCExp)
    | Exists(bound: set<Name>, bindList: seq<Bind>, pred: TCExp)
    | ForAll(bound: set<Name>, bindList: seq<Bind>, pred: TCExp)
    | If(ifExp: TCExp, thenExp: TCExp, elseIfs: seq<TCExp>, elseExp: TCExp)
    | Iota(bound: set<Name>, bind: Bind, pred: TCExp)
    | Lambda(bindList: seq<Bind>, body: TCExp)
    | LetBeSt(bound: set<Name>, bind: Bind, suchThat: Option<TCExp>, value: TCExp)
    | LetDef(localDefs: seq<LocalDef>, expression: TCExp)
    | MapComp(bound: set<Name>, first: TCExp, bindList: seq<Bind>, optPred: Option<TCExp>)
    | MkBasic(typeNames: set<Name>, arg: TCExp)
    | MkType(typename: Name, args: seq<TCExp>)
    | Mu(record: TCExp, modifiers: seq<TCExp>)
    | Narrow(test: TCExp, optTypename: Option<Name>)
    | SeqComp(bound: set<Name>, first: TCExp, bind: Bind, optPred: Option<TCExp>)
    | SetComp(bound: set<Name>, first: TCExp, bindList: seq<Bind>, optPred: Option<TCExp>)
    | Variable(name: Name)
    | Leaf
    | Compound(children: seq<TCExp>)

  /** The names global renames stand for. */
  function RenameTargets(g: Globals): set<Name>
  {
    set n | n in g && g[n].Renamed? && g[n].target.Some? :: g[n].target.value
  }

  /** The free variables of `e`, with the globals `g` and the local names `env`. */
  function FV(e: TCExp, g: Globals, env: set<Name>): set<Name>
    decreases e, 1, 0
  {
    match e
    case Apply(root, functionTyped, args) =>
      (if root.Variable? && functionTyped && root.name in g then {root.name} else {}) +
      (set i, x | 0 <= i < |args| && x in FV(args[i], g, env) :: x)
    case BooleanBinary(left, _) => FV(left, g, env)
    case Cases(exp, _) => FV(exp, g, env)
    case Exists1(bound, bind, pred) =>
      FV(pred, g, env + bound) + BindFV(bind, g, env + bound)
    case Exists(bound, bindList, pred) =>
      FV(pred, g, env + bound) + BindsFV(bindList, g, env + bound)
    case ForAll(bound, bindList, pred) =>
      FV(pred, g, env + bound) + BindsFV(bindList, g, env + bound)
    case If(ifExp, _, _, _) => FV(ifExp, g, env)
    case Iota(bound, bind, pred) =>
      FV(pred, g, env + bound) + BindFV(bind, g, env + bound)
    case Lambda(bindList, _) => BindsFV(bindList, g, env)
    case LetBeSt(bound, bind, suchThat, value) =>
      BindFV(bind, g, env + bound) +
      (if suchThat.Some? then FV(suchThat.value, g, env + bound) else {}) +
      FV(value, g, env + bound)
    case LetDef(localDefs, expression) => LetFV(localDefs, 0, expression, g, env)
    case MapComp(bound, _, bindList, _) => BindsFV(bindList, g, env + bound)
    case MkBasic(typeNames, arg) => typeNames + FV(arg, g, env)
    case MkType(typename, args) =>
      {typename} + (set i, x | 0 <= i < |args| && x in FV(args[i], g, env) :: x)
    case Mu(record, modifiers) =>
      FV(record, g, env) + (set i, x | 0 <= i < |modifiers| && x in FV(modifiers[i], g, env) :: x)
    case Narrow(test, optTypename) =>
      FV(test, g, env) + (if optTypename.Some? then {optTypename.value} else {})
    case SeqComp(bound, _, bind, _) => BindFV(bind, g, env + bound)
    case SetComp(bound, _, bindList, _) => BindsFV(bindList, g, env + bound)
    case Variable(name) =>
      if name in g && g[name].isFunction then {}
      else if name in g && g[name].Renamed? && g[name].target.Some? then {g[name].target.value}
      else if name !in env then {name}
      else {}
    case Leaf => {}
    case Compound(children) => set i, x | 0 <= i < |children| && x in FV(children[i], g, env) :: x
  }

  /** The free variables of a bind: those of its set or sequence expression, or its type's names. */
  function BindFV(b: Bind, g: Globals, env: set<Name>): set<Name>
    decreases b, 2, 0
  {
    match b
    case SetBind(setExp) => FV(setExp, g, env)
    case SeqBind(seqExp) => FV(seqExp, g, env)
    case TypeBind(typeNames) => typeNames
  }

  function BindsFV(bs: seq<Bind>, g: Globals, env: set<Name>): set<Name>
    decreases bs, 3, 0
  {
    set i, x | 0 <= i < |bs| && x in BindFV(bs[i], g, env) :: x
  }

  /**
   * The free variables of a `let` or `def` from its `i`-th definition on:
   * explicit function definitions are skipped; every other definition
   * extends the local names before its own free variables are taken, and the
   * body is analysed with all of them.
   */
  function LetFV(defs: seq<LocalDef>, i: nat, body: TCExp, g: Globals, local: set<Name>): set<Name>
    requires i <= |defs|
    decreases LetDef(defs, body), 0, |defs| - i
  {
    if i == |defs| then FV(body, g, local)
    else
      match defs[i]
      case ExplicitFunctionDef(_) => LetFV(defs, i + 1, body, g, local)
      case OtherDef(defined, exp) =>
        FV(exp, g, local + defined) + LetFV(defs, i + 1, body, g, local + defined)
  }

  /**
   * `caseLetDefExpression`: the local names grow definition by definition
   * while the definitions' free variables are collected, then the body's are
   * added.
   */
  method LetDefFreeVariables(defs: seq<LocalDef>, body: TCExp, g: Globals, env: set<Name>)
    returns (names: set<Name>)
    ensures names == FV(LetDef(defs, body), g, env)
  {
    var local := env;
    names := {};
    var i := 0;
    while i < |defs|
      invariant 0 <= i <= |defs|
      invariant names + LetFV(defs, i, body, g, local) == LetFV(defs, 0, body, g, env)
    {
      match defs[i] {
        case ExplicitFunctionDef(_) =>
        case OtherDef(defined, exp) =>
          local := local + defined;
          names := names + FV(exp, g, local);
      }
      i := i + 1;
    }
    names := names + FV(body, g, local);
  }

  /** The names written in `e` as variables, anywhere in it. */
  function VarNames(e: TCExp): set<Name>
    decreases e, 1
  {
    (if e.Variable? then {e.name} else {}) + (set c, x | c in Children(e) && x in VarNames(c) :: x)
  }

  /** The type names written in `e`, anywhere in it. */
  function TypeNames(e: TCExp): set<Name>
    decreases e, 1
  {
    TypeNamesHere(e) + (set c, x | c in Children(e) && x in TypeNames(c) :: x)
  }

  function BindTypeNames(b: Bind): set<Name>
  {
    if b.TypeBind? then b.typeNames else {}
  }

  /** The type names written in `e` itself, outside its sub-expressions. */
  function TypeNamesHere(e: TCExp): set<Name>
  {
    match e
    case Exists1(_, bind, _) => BindTypeNames(bind)
    case Exists(_, bindList, _) => set b, x | b in bindList && x in BindTypeNames(b) :: x
    case ForAll(_, bindList, _) => set b, x | b in bindList && x in BindTypeNames(b) :: x
    case Iota(_, bind, _) => BindTypeNames(bind)
    case Lambda(bindList, _) => set b, x | b in bindList && x in BindTypeNames(b) :: x
    case LetBeSt(_, bind, _, _) => BindTypeNames(bind)
    case MapComp(_, _, bindList, _) => set b, x | b in bindList && x in BindTypeNames(b) :: x
    case MkBasic(typeNames, _) => typeNames
    case MkType(typename, _) => {typename}
    case Narrow(_, optTypename) => if optTypename.Some? then {optTypename.value} else {}
    case SeqComp(_, _, bind, _) => BindTypeNames(bind)
    case SetComp(_, _, bindList, _) => set b, x | b in bindList && x in BindTypeNames(b) :: x
    case _ => {}
  }

  function BindExps(b: Bind): set<TCExp>
  {
    match b
    case SetBind(x) => {x}
    case SeqBind(x) => {x}
    case TypeBind(_) => {}
  }

  function BindsExps(bs: seq<Bind>): set<TCExp>
  {
    set b, x | b in bs && x in BindExps(b) :: x
  }

  /** Every direct sub-expression of `e`, whether the analysis visits it or not. */
  function Children(e: TCExp): (cs: set<TCExp>)
    ensures forall c :: c in cs ==> c < e
  {
    match e
    case Apply(root, _, args) => {root} + set a | a in args
    case BooleanBinary(left, right) => {left, right}
    case Cases(exp, alternatives) => {exp} + set a | a in alternatives
    case Exists1(_, bind, pred) => BindExps(bind) + {pred}
    case Exists(_, bindList, pred) => BindsExps(bindList) + {pred}
    case ForAll(_, bindList, pred) => BindsExps(bindList) + {pred}
    case If(ifExp, thenExp, elseIfs, elseExp) => {ifExp, thenExp, elseExp} + set a | a in elseIfs
    case Iota(_, bind, pred) => BindExps(bind) + {pred}
    case Lambda(bindList, body) => BindsExps(bindList) + {body}
    case LetBeSt(_, bind, suchThat, value) =>
      BindExps(bind) + (if suchThat.Some? then {suchThat.value} else {}) + {value}
    case LetDef(localDefs, expression) => (set d | d in localDefs && d.OtherDef? :: d.exp) + {expression}
    case MapComp(_, first, bindList, optPred) =>
      {first} + BindsExps(bindList) + (if optPred.Some? then {optPred.value} else {})
    case MkBasic(_, arg) => {arg}
    case MkType(_, args) => set a | a in args
    case Mu(record, modifiers) => {record} + set a | a in modifiers
    case Narrow(test, _) => {test}
    case SeqComp(_, first, bind, optPred) =>
      {first} + BindExps(bind) + (if optPred.Some? then {optPred.value} else {})
    case SetComp(_, first, bindList, optPred) =>
      {first} + BindsExps(bindList) + (if optPred.Some? then {optPred.value} else {})
    case Variable(_) => {}
    case Leaf => {}
    case Compound(children) => set a | a in children
  }

  /**
   * The names that can be free in `e` with local names `env`: its variables
   * not bound in `env`, the globals among its variables, the type names
   * written in it, and the names global renames stand for.
   */
  ghost function Bound(e: TCExp, g: Globals, env: set<Name>): set<Name>
  {
    (VarNames(e) - env) + (VarNames(e) * g.Keys) + TypeNames(e) + RenameTargets(g)
  }

  /**
   * What a free variable can be: a variable of `e` not bound in `env`, a
   * global it calls, a type name written in it, or the name a global rename
   * stands for.
   */
  lemma {:induction false} FreeVariablesBound(e: TCExp, g: Globals, env: set<Name>)
    ensures FV(e, g, env) <= Bound(e, g, env)
    decreases e, 3
  {
    if e.Exists1? || e.Exists? || e.ForAll? || e.Iota? || e.Lambda? || e.LetBeSt? || e.MapComp? || e.SeqComp? || e.SetComp? {
      FreeVariablesBoundBinding(e, g, env);
    } else if e.Apply? || e.MkType? || e.Mu? || e.Compound? {
      FreeVariablesBoundLists(e, g, env);
    } else {
      FreeVariablesBoundSimple(e, g, env);
    }
  }

  lemma {:induction false} FreeVariablesBoundBinding(e: TCExp, g: Globals, env: set<Name>)
    requires e.Exists1? || e.Exists? || e.ForAll? || e.Iota? || e.Lambda? || e.LetBeSt? || e.MapComp? || e.SeqComp? || e.SetComp?
    ensures FV(e, g, env) <= Bound(e, g, env)
    decreases e, 3, 0
  {
    match e {
      case Exists1(bnd, bind, pred) =>
        ChildBound(e, pred, g, env + bnd, env);
        BindBound(e, bind, g, env + bnd, env);
      case Exists(bnd, bindList, pred) =>
        ChildBound(e, pred, g, env + bnd, env);
        BindsBound(e, bindList, g, env + bnd, env);
      case ForAll(bnd, bindList, pred) =>
        ChildBound(e, pred, g, env + bnd, env);
        BindsBound(e, bindList, g, env + bnd, env);
      case Iota(bnd, bind, pred) =>
        ChildBound(e, pred, g, env + bnd, env);
        BindBound(e, bind, g, env + bnd, env);
      case Lambda(bindList, _) =>
        BindsBound(e, bindList, g, env, env);
      case LetBeSt(bnd, bind, suchThat, value) =>
        BindBound(e, bind, g, env + bnd, env);
        if suchThat.Some? {
          ChildBound(e, suchThat.value, g, env + bnd, env);
        }
        ChildBound(e, value, g, env + bnd, env);
      case MapComp(bnd, _, bindList, _) =>
        BindsBound(e, bindList, g, env + bnd, env);
      case SeqComp(bnd, _, bind, _) =>
        BindBound(e, bind, g, env + bnd, env);
      case SetComp(bnd, _, bindList, _) =>
        BindsBound(e, bindList, g, env + bnd, env);
    }
  }

  lemma {:induction false} FreeVariablesBoundLists(e: TCExp, g: Globals, env: set<Name>)
    requires e.Apply? || e.MkType? || e.Mu? || e.Compound?
    ensures FV(e, g, env) <= Bound(e, g, env)
    decreases e, 3, 0
  {
    match e {
      case Apply(root, functionTyped, args) =>
        if root.Variable? && functionTyped && root.name in g {
          assert root in Children(e);
          assert root.name in VarNames(root);
        }
        forall i | 0 <= i < |args| ensures FV(args[i], g, env) <= Bound(e, g, env) {
          assert args[i] in Children(e);
          ChildBound(e, args[i], g, env, env);
        }
      case MkType(typename, args) =>
        forall i | 0 <= i < |args| ensures FV(args[i], g, env) <= Bound(e, g, env) {
          assert args[i] in Children(e);
          ChildBound(e, args[i], g, env, env);
        }
      case Mu(record, modifiers) =>
        ChildBound(e, record, g, env, env);
        forall i | 0 <= i < |modifiers| ensures FV(modifiers[i], g, env) <= Bound(e, g, env) {
          assert modifiers[i] in Children(e);
          ChildBound(e, modifiers[i], g, env, env);
        }
      case Compound(children) =>
        forall i | 0 <= i < |children| ensures FV(children[i], g, env) <= Bound(e, g, env) {
          assert children[i] in Children(e);
          ChildBound(e, children[i], g, env, env);
        }
    }
  }

  lemma {:induction false} FreeVariablesBoundSimple(e: TCExp, g: Globals, env: set<Name>)
    requires e.BooleanBinary? || e.Cases? || e.If? || e.LetDef? || e.MkBasic? || e.Narrow? || e.Variable? || e.Leaf?
    ensures FV(e, g, env) <= Bound(e, g, env)
    decreases e, 3, 0
  {
    match e {
      case BooleanBinary(left, _) =>
        ChildBound(e, left, g, env, env);
      case Cases(exp, _) =>
        ChildBound(e, exp, g, env, env);
      case If(ifExp, _, _, _) =>
        ChildBound(e, ifExp, g, env, env);
      case LetDef(localDefs, expression) =>
        LetFVBound(e, localDefs, 0, expression, g, env, env);
      case MkBasic(typeNames, arg) =>
        ChildBound(e, arg, g, env, env);
      case Narrow(test, _) =>
        ChildBound(e, test, g, env, env);
      case Variable(name) =>
        assert name in VarNames(e);
        if name in g && g[name].Renamed? && g[name].target.Some? {
          assert g[name].target.value in RenameTargets(g);
        }
      case Leaf =>
    }
  }


  /** A sub-expression of `e`, analysed with local names that only add to `env`, stays within `e`'s bound. */
  lemma {:induction false} ChildBound(e: TCExp, c: TCExp, g: Globals, local: set<Name>, env: set<Name>)
    requires c in Children(e) && env <= local
    ensures FV(c, g, local) <= Bound(e, g, env)
    decreases e, 0
  {
    FreeVariablesBound(c, g, local);
    assert VarNames(c) <= VarNames(e);
    assert TypeNames(c) <= TypeNames(e);
  }

  /** The same for a bind of `e`. */
  lemma {:induction false} BindBound(e: TCExp, b: Bind, g: Globals, local: set<Name>, env: set<Name>)
    requires env <= local && BindExps(b) <= Children(e) && BindTypeNames(b) <= TypeNamesHere(e)
    ensures BindFV(b, g, local) <= Bound(e, g, env)
    decreases e, 1
  {
    match b
    case SetBind(setExp) =>
      assert setExp in BindExps(b);
      ChildBound(e, setExp, g, local, env);
    case SeqBind(seqExp) =>
      assert seqExp in BindExps(b);
      ChildBound(e, seqExp, g, local, env);
    case TypeBind(_) =>
  }

  /** The same for a list of binds of `e`. */
  lemma {:induction false} BindsBound(e: TCExp, bs: seq<Bind>, g: Globals, local: set<Name>, env: set<Name>)
    requires env <= local && BindsExps(bs) <= Children(e)
    requires forall b :: b in bs ==> BindTypeNames(b) <= TypeNamesHere(e)
    ensures BindsFV(bs, g, local) <= Bound(e, g, env)
    decreases e, 2
  {
    forall i | 0 <= i < |bs| ensures BindFV(bs[i], g, local) <= Bound(e, g, env) {
      assert bs[i] in bs;
      assert BindExps(bs[i]) <= BindsExps(bs);
      BindBound(e, bs[i], g, local, env);
    }
  }

  /** The same for the definitions and the body of a `let` or `def` `e`. */
  lemma {:induction false} LetFVBound(e: TCExp, defs: seq<LocalDef>, i: nat, body: TCExp, g: Globals,
                                      local: set<Name>, env: set<Name>)
    requires e == LetDef(defs, body) && i <= |defs| && env <= local
    ensures LetFV(defs, i, body, g, local) <= Bound(e, g, env)
    decreases e, 2, |defs| - i
  {
    if i == |defs| {
      ChildBound(e, body, g, local, env);
    } else {
      match defs[i]
      case ExplicitFunctionDef(_) =>
        LetFVBound(e, defs, i + 1, body, g, local, env);
      case OtherDef(defined, exp) =>
        assert defs[i] in defs;
        ChildBound(e, exp, g, local + defined, env);
        LetFVBound(e, defs, i + 1, body, g, local + defined, env);
    }
  }

  /** A bound name that is neither global, nor a rename target, nor a type name of `e` is not free in `e`. */
  lemma ShadowedNotFree(e: TCExp, g: Globals, env: set<Name>, x: Name)
    requires x in env && x !in g && x !in RenameTargets(g) && x !in TypeNames(e)
    ensures x !in FV(e, g, env)
  {
    FreeVariablesBound(e, g, env);
  }

  /** More local names mean fewer free variables. */
  lemma {:induction false} MoreLocalsFewerFree(e: TCExp, g: Globals, env1: set<Name>, env2: set<Name>)
    requires env1 <= env2
    ensures FV(e, g, env2) <= FV(e, g, env1)
    decreases e, 1, 0
  {
    if e.Exists1? || e.Exists? || e.ForAll? || e.Iota? || e.Lambda? || e.LetBeSt? || e.MapComp? || e.SeqComp? || e.SetComp? {
      MoreLocalsBinding(e, g, env1, env2);
    } else if e.Apply? || e.MkType? || e.Mu? || e.Compound? {
      MoreLocalsLists(e, g, env1, env2);
    } else {
      MoreLocalsSimple(e, g, env1, env2);
    }
  }

  lemma {:induction false} MoreLocalsBinding(e: TCExp, g: Globals, env1: set<Name>, env2: set<Name>)
    requires env1 <= env2
    requires e.Exists1? || e.Exists? || e.ForAll? || e.Iota? || e.Lambda? || e.LetBeSt? || e.MapComp? || e.SeqComp? || e.SetComp?
    ensures FV(e, g, env2) <= FV(e, g, env1)
    decreases e, 1, 0, 0
  {
    match e {
      case Exists1(bnd, bind, pred) =>
        MoreLocalsFewerFree(pred, g, env1 + bnd, env2 + bnd);
        BindMoreLocals(bind, g, env1 + bnd, env2 + bnd);
      case Exists(bnd, bindList, pred) =>
        MoreLocalsFewerFree(pred, g, env1 + bnd, env2 + bnd);
        BindsMoreLocals(bindList, g, env1 + bnd, env2 + bnd);
      case ForAll(bnd, bindList, pred) =>
        MoreLocalsFewerFree(pred, g, env1 + bnd, env2 + bnd);
        BindsMoreLocals(bindList, g, env1 + bnd, env2 + bnd);
      case Iota(bnd, bind, pred) =>
        MoreLocalsFewerFree(pred, g, env1 + bnd, env2 + bnd);
        BindMoreLocals(bind, g, env1 + bnd, env2 + bnd);
      case Lambda(bindList, _) => BindsMoreLocals(bindList, g, env1, env2);
      case LetBeSt(bnd, bind, suchThat, value) =>
        BindMoreLocals(bind, g, env1 + bnd, env2 + bnd);
        if suchThat.Some? {
          MoreLocalsFewerFree(suchThat.value, g, env1 + bnd, env2 + bnd);
        }
        MoreLocalsFewerFree(value, g, env1 + bnd, env2 + bnd);
      case MapComp(bnd, _, bindList, _) => BindsMoreLocals(bindList, g, env1 + bnd, env2 + bnd);
      case SeqComp(bnd, _, bind, _) => BindMoreLocals(bind, g, env1 + bnd, env2 + bnd);
      case SetComp(bnd, _, bindList, _) => BindsMoreLocals(bindList, g, env1 + bnd, env2 + bnd);
    }
  }

  lemma {:induction false} MoreLocalsLists(e: TCExp, g: Globals, env1: set<Name>, env2: set<Name>)
    requires env1 <= env2
    requires e.Apply? || e.MkType? || e.Mu? || e.Compound?
    ensures FV(e, g, env2) <= FV(e, g, env1)
    decreases e, 1, 0, 0
  {
    match e {
      case Apply(root, functionTyped, args) =>
        forall i | 0 <= i < |args| ensures FV(args[i], g, env2) <= FV(args[i], g, env1) {
          MoreLocalsFewerFree(args[i], g, env1, env2);
        }
      case MkType(_, args) =>
        forall i | 0 <= i < |args| ensures FV(args[i], g, env2) <= FV(args[i], g, env1) {
          MoreLocalsFewerFree(args[i], g, env1, env2);
        }
      case Mu(record, modifiers) =>
        MoreLocalsFewerFree(record, g, env1, env2);
        forall i | 0 <= i < |modifiers| ensures FV(modifiers[i], g, env2) <= FV(modifiers[i], g, env1) {
          MoreLocalsFewerFree(modifiers[i], g, env1, env2);
        }
      case Compound(children) =>
        forall i | 0 <= i < |children| ensures FV(children[i], g, env2) <= FV(children[i], g, env1) {
          MoreLocalsFewerFree(children[i], g, env1, env2);
        }
    }
  }

  lemma {:induction false} MoreLocalsSimple(e: TCExp, g: Globals, env1: set<Name>, env2: set<Name>)
    requires env1 <= env2
    requires e.BooleanBinary? || e.Cases? || e.If? || e.LetDef? || e.MkBasic? || e.Narrow? || e.Variable? || e.Leaf?
    ensures FV(e, g, env2) <= FV(e, g, env1)
    decreases e, 1, 0, 0
  {
    match e {
      case BooleanBinary(left, _) => MoreLocalsFewerFree(left, g, env1, env2);
      case Cases(exp, _) => MoreLocalsFewerFree(exp, g, env1, env2);
      case If(ifExp, _, _, _) => MoreLocalsFewerFree(ifExp, g, env1, env2);
      case LetDef(localDefs, expression) => LetMoreLocals(localDefs, 0, expression, g, env1, env2);
      case MkBasic(_, arg) => MoreLocalsFewerFree(arg, g, env1, env2);
      case Narrow(test, _) => MoreLocalsFewerFree(test, g, env1, env2);
      case Variable(_) =>
      case Leaf =>
    }
  }


  lemma {:induction false} BindMoreLocals(b: Bind, g: Globals, env1: set<Name>, env2: set<Name>)
    requires env1 <= env2
    ensures BindFV(b, g, env2) <= BindFV(b, g, env1)
    decreases b, 2, 0
  {
    match b
    case SetBind(setExp) => MoreLocalsFewerFree(setExp, g, env1, env2);
    case SeqBind(seqExp) => MoreLocalsFewerFree(seqExp, g, env1, env2);
    case TypeBind(_) =>
  }

  lemma {:induction false} BindsMoreLocals(bs: seq<Bind>, g: Globals, env1: set<Name>, env2: set<Name>)
    requires env1 <= env2
    ensures BindsFV(bs, g, env2) <= BindsFV(bs, g, env1)
    decreases bs, 3, 0
  {
    forall i | 0 <= i < |bs| ensures BindFV(bs[i], g, env2) <= BindFV(bs[i], g, env1) {
      BindMoreLocals(bs[i], g, env1, env2);
    }
  }

  lemma {:induction false} LetMoreLocals(defs: seq<LocalDef>, i: nat, body: TCExp, g: Globals,
                                         env1: set<Name>, env2: set<Name>)
    requires i <= |defs| && env1 <= env2
    ensures LetFV(defs, i, body, g, env2) <= LetFV(defs, i, body, g, env1)
    decreases LetDef(defs, body), 0, |defs| - i
  {
    if i == |defs| {
      MoreLocalsFewerFree(body, g, env1, env2);
    } else {
      match defs[i]
      case ExplicitFunctionDef(_) =>
        LetMoreLocals(defs, i + 1, body, g, env1, env2);
      case OtherDef(defined, exp) =>
        MoreLocalsFewerFree(exp, g, env1 + defined, env2 + defined);
        LetMoreLocals(defs, i + 1, body, g, env1 + defined, env2 + defined);
    }
  }

  /** A `let` whose definitions are all explicit functions has exactly its body's free variables. */
  lemma {:induction false} FunctionDefinitionsIgnored(defs: seq<LocalDef>, i: nat, body: TCExp, g: Globals, env: set<Name>)
    requires i <= |defs| && forall j :: i <= j < |defs| ==> defs[j].ExplicitFunctionDef?
    ensures LetFV(defs, i, body, g, env) == FV(body, g, env)
    decreases |defs| - i
  {
    if i < |defs| {
      FunctionDefinitionsIgnored(defs, i + 1, body, g, env);
    }
  }

  /**
   * A definition's own names are local both for its expression and for the
   * body: one definition of names `defined` gives the free variables of its
   * expression and of the body, each analysed with `defined` added.
   */
  lemma SingleDefinitionScope(defined: set<Name>, exp: TCExp, body: TCExp, g: Globals, env: set<Name>)
    ensures FV(LetDef([OtherDef(defined, exp)], body), g, env) ==
      FV(exp, g, env + defined) + FV(body, g, env + defined)
    ensures forall x :: x in defined && x !in g && x !in RenameTargets(g) && x !in TypeNames(exp) && x !in TypeNames(body) ==>
      x !in FV(LetDef([OtherDef(defined, exp)], body), g, env)
  {
    var defs := [OtherDef(defined, exp)];
    var inner, rest := FV(exp, g, env + defined), FV(body, g, env + defined);
    assert FV(LetDef(defs, body), g, env) == inner + rest by {
      assert LetFV(defs, 1, body, g, env + defined) == rest;
      assert LetFV(defs, 0, body, g, env) == inner + LetFV(defs, 1, body, g, env + defined);
    }
    forall x | x in defined && x !in g && x !in RenameTargets(g) && x !in TypeNames(exp) && x !in TypeNames(body)
      ensures x !in FV(exp, g, env + defined) + FV(body, g, env + defined)
    {
      ShadowedNotFree(exp, g, env + defined, x);
      ShadowedNotFree(body, g, env + defined, x);
    }
  }

  /**
   * A variable has at most one free name, and none exactly when it names a
   * global function, or is bound locally and is not a rename of a named
   * definition.
   */
  lemma VariableFreeNames(name: Name, g: Globals, env: set<Name>)
    ensures |FV(Variable(name), g, env)| <= 1
    ensures FV(Variable(name), g, env) == {} <==>
      (name in g && g[name].isFunction) ||
      (name in env && !(name in g && g[name].Renamed? && g[name].target.Some?))
    ensures name in g && !g[name].isFunction && g[name].Renamed? && g[name].target.Some? ==>
      FV(Variable(name), g, env) == {g[name].target.value}
  {
  }

  /**
   * Conditionally evaluated parts are ignored: the right operand of a
   * boolean operator, the branches of `if` and the alternatives of `cases`,
   * the body of a lambda, and the element and pred of a comprehension
   * can be replaced without changing the free variables.
   */
  lemma ConditionalPartsIgnored(e1: TCExp, e2: TCExp, g: Globals, env: set<Name>)
    requires
      || (e1.BooleanBinary? && e2.BooleanBinary? && e1.left == e2.left)
      || (e1.If? && e2.If? && e1.ifExp == e2.ifExp)
      || (e1.Cases? && e2.Cases? && e1.exp == e2.exp)
      || (e1.Lambda? && e2.Lambda? && e1.bindList == e2.bindList)
      || (e1.SetComp? && e2.SetComp? && e1.bound == e2.bound && e1.bindList == e2.bindList)
      || (e1.SeqComp? && e2.SeqComp? && e1.bound == e2.bound && e1.bind == e2.bind)
      || (e1.MapComp? && e2.MapComp? && e1.bound == e2.bound && e1.bindList == e2.bindList)
    ensures FV(e1, g, env) == FV(e2, g, env)
  {
  }

  /**
   * A `mk_` expression always depends on its record type, and a call of a
   * function-typed global variable depends on that function; the other
   * names of both come from the arguments.
   */
  lemma TypeAndFunctionDependencies(e: TCExp, g: Globals, env: set<Name>)
    ensures e.MkType? ==> e.typename in FV(e, g, env)
    ensures e.Apply? && e.root.Variable? && e.functionTyped && e.root.name in g ==> e.root.name in FV(e, g, env)
    ensures e.Apply? && !(e.root.Variable? && e.functionTyped && e.root.name in g) ==>
      forall x :: x in FV(e, g, env) ==> exists i :: 0 <= i < |e.args| && x in FV(e.args[i], g, env)
  {
  }
}
