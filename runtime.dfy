/**
 * Shared runtime notions of the interpreter: the optional and result
 * wrappers, the closed union of runtime values with its coercions, the
 * exceptions an evaluation can raise, and the execution context (a scope
 * with a parent link).
 */
module Runtime {

  datatype Option<+T> = None | Some(value: T)

  datatype Result<+T, +E> = Ok(value: T) | Err(error: E)

  /** Names are compared by their text; module qualification is not modelled. */
  type Name = string

  /** Type-checker types, as far as the interpreter core inspects them. */
  datatype TCType =
    | BooleanType
    | CharacterType
    | TokenType
    | UnknownType
    | NumericType(numeric: string)
    | NamedType(text: string)
  {
    /** The printed form of a type; only named types can carry an '@'. */
    function Text(): string
    {
      match this
      case BooleanType => "bool"
      case CharacterType => "char"
      case TokenType => "token"
      case UnknownType => "?"
      case NumericType(n) => n
      case NamedType(t) => t
    }
  }

  /**
   * A function value: its name, the types it was instantiated with, the
   * object it belongs to (by reference number) and whether its type
   * parameters are still unbound.
   */
  datatype FunctionValue = FunctionValue(
    name: Name, typeArgs: seq<TCType>, self: Option<nat>, uninstantiated: bool)

  /** The closed union of runtime values. */
  datatype Value =
    | BoolV(b: bool)
    | CharV(c: char)
    | NatV(n: nat)
    | IntV(i: int)
    | QuoteV(quote: string)
    | TokenV(wrapped: Value)
    | SetV(elems: set<Value>)
    | SeqV(items: seq<Value>)
    | MapV(entries: map<Value, Value>)
    | RecordV(tag: Name, fields: seq<Value>)
    | FuncV(fv: FunctionValue)
    | ParameterV(ptype: TCType)
    | RefV(target: Value)   // an updatable or reference value: deref() looks through it
    | VoidV
  {
    /** The tag name used in diagnostics. */
    function Tag(): string
    {
      match this
      case BoolV(_) => "bool"
      case CharV(_) => "char"
      case NatV(_) => "nat"
      case IntV(_) => "int"
      case QuoteV(_) => "quote"
      case TokenV(_) => "token"
      case SetV(_) => "set"
      case SeqV(_) => "seq"
      case MapV(_) => "map"
      case RecordV(_, _) => "record"
      case FuncV(_) => "function"
      case ParameterV(_) => "parameter"
      case RefV(_) => "reference"
      case VoidV => "()"
    }
  }

  /** Looks through every reference wrapper. */
  function Deref(v: Value): (r: Value)
    ensures !r.RefV?
    ensures !v.RefV? ==> r == v
  {
    if v.RefV? then Deref(v.target) else v
  }

  /** The checked exception a value operation raises. */
  datatype ValueError =
    | Coercion(expected: string, actual: string)
    | Numbered(number: int, message: string)

  /** What a runtime abort carries: its own number, or the value error it wraps. */
  datatype AbortCause =
    | Code(number: int, message: string)
    | FromValue(error: ValueError)

  /** Unchecked exceptions that escape an evaluation. */
  datatype RuntimeException =
    | ContextException(cause: AbortCause)
    | OtherException(message: string)

  /** The outcome of evaluating one node: a value, or an escaping exception. */
  datatype Outcome<+T> = Normal(value: T) | Thrown(exc: RuntimeException)

  /** `abort(e)`: a value error becomes a located runtime abort. */
  function AbortWith(e: ValueError): RuntimeException
  {
    ContextException(FromValue(e))
  }

  /** `abort(n, message, ctxt)`. */
  function Abort(number: int, message: string): RuntimeException
  {
    ContextException(Code(number, message))
  }

  function CoercionFailure(expected: string, v: Value): ValueError
  {
    Coercion(expected, Deref(v).Tag())
  }

  function BoolValue(v: Value): (r: Result<bool, ValueError>)
    ensures r.Ok? <==> Deref(v).BoolV?
    ensures r.Ok? ==> r.value == Deref(v).b
  {
    var d := Deref(v);
    if d.BoolV? then Ok(d.b) else Err(CoercionFailure("bool", v))
  }

  function CharValue(v: Value): (r: Result<char, ValueError>)
    ensures r.Ok? <==> Deref(v).CharV?
    ensures r.Ok? ==> r.value == Deref(v).c
  {
    var d := Deref(v);
    if d.CharV? then Ok(d.c) else Err(CoercionFailure("char", v))
  }

  function SetValue(v: Value): (r: Result<set<Value>, ValueError>)
    ensures r.Ok? <==> Deref(v).SetV?
    ensures r.Ok? ==> r.value == Deref(v).elems
  {
    var d := Deref(v);
    if d.SetV? then Ok(d.elems) else Err(CoercionFailure("set", v))
  }

  function MapValue(v: Value): (r: Result<map<Value, Value>, ValueError>)
    ensures r.Ok? <==> Deref(v).MapV?
    ensures r.Ok? ==> r.value == Deref(v).entries
  {
    var d := Deref(v);
    if d.MapV? then Ok(d.entries) else Err(CoercionFailure("map", v))
  }

  function FunctionValueOf(v: Value): (r: Result<FunctionValue, ValueError>)
    ensures r.Ok? <==> Deref(v).FuncV?
    ensures r.Ok? ==> r.value == Deref(v).fv
  {
    var d := Deref(v);
    if d.FuncV? then Ok(d.fv) else Err(CoercionFailure("function", v))
  }

  /** `putList`: each pair in turn is put into the scope, a later one replacing an earlier one. */
  function PutList(vars: map<Name, Value>, pairs: seq<(Name, Value)>): (r: map<Name, Value>)
    ensures r.Keys == vars.Keys + (set i | 0 <= i < |pairs| :: pairs[i].0)
    decreases |pairs|
  {
    if pairs == [] then vars
    else PutList(vars[pairs[0].0 := pairs[0].1], pairs[1..])
  }

  /** The concatenation of `f` over `xs`, in order: what repeated `addAll` into a list builds. */
  function ConcatMap<A, B>(xs: seq<A>, f: A -> seq<B>): seq<B>
  {
    if xs == [] then [] else f(xs[0]) + ConcatMap(xs[1..], f)
  }

  lemma {:induction false} ConcatMapAppend<A, B>(xs: seq<A>, ys: seq<A>, f: A -> seq<B>)
    ensures ConcatMap(xs + ys, f) == ConcatMap(xs, f) + ConcatMap(ys, f)
  {
    if xs == [] {
      assert xs + ys == ys;
    } else {
      assert (xs + ys)[1..] == xs[1..] + ys;
      ConcatMapAppend(xs[1..], ys, f);
    }
  }

  lemma {:induction false} ConcatMapMember<A, B>(xs: seq<A>, f: A -> seq<B>, y: B)
    ensures y in ConcatMap(xs, f) <==> exists i :: 0 <= i < |xs| && y in f(xs[i])
  {
    if xs != [] {
      ConcatMapMember(xs[1..], f, y);
      if y in ConcatMap(xs[1..], f) {
        var i :| 0 <= i < |xs[1..]| && y in f(xs[1..][i]);
        assert y in f(xs[i + 1]);
      }
      if exists i :: 0 <= i < |xs| && y in f(xs[i]) {
        var i :| 0 <= i < |xs| && y in f(xs[i]);
        if i > 0 {
          assert y in f(xs[1..][i - 1]);
        }
      }
    }
  }

  /**
   * An execution context: one scope of bindings and a link to its parent.
   * The parent chain is fixed at construction and acyclic.
   */
  class Context {
    const title: string
    const parent: Context?
    var vars: map<Name, Value>
    ghost const Repr: set<Context>
    ghost const depth: nat

    ghost predicate Valid()
      reads Repr
      decreases depth
    {
      this in Repr &&
      (parent == null ==> Repr == {this} && depth == 0) &&
      (parent != null ==>
        parent in Repr && Repr == {this} + parent.Repr && this !in parent.Repr &&
        parent.depth < depth && parent.Valid())
    }

    /** Every binding visible from this scope; inner bindings hide outer ones. */
    function Env(): map<Name, Value>
      reads Repr
      requires Valid()
      decreases depth
    {
      if parent == null then vars else parent.Env() + vars
    }

    constructor (title: string, parent: Context?)
      requires parent != null ==> parent.Valid()
      ensures Valid() && fresh(this)
      ensures this.title == title && this.parent == parent && vars == map[]
      ensures parent == null ==> Repr == {this}
      ensures parent != null ==> Repr == {this} + parent.Repr
    {
      this.title := title;
      this.parent := parent;
      this.vars := map[];
      if parent == null {
        this.Repr := {this};
        this.depth := 0;
      } else {
        this.Repr := {this} + parent.Repr;
        this.depth := parent.depth + 1;
      }
    }

    method Put(name: Name, v: Value)
      requires Valid()
      modifies this`vars
      ensures Valid()
      ensures vars == old(vars)[name := v]
    {
      vars := vars[name := v];
    }

    method PutAll(pairs: seq<(Name, Value)>)
      requires Valid()
      modifies this`vars
      ensures Valid()
      ensures vars == PutList(old(vars), pairs)
    {
      vars := PutList(vars, pairs);
    }
  }
}
