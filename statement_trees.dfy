/**
 * The shape of statement trees as the leaf-collecting statement visitors see
 * them (FJ-VDMJ4 in/statements and ast/statements): every statement kind
 * with a case of its own, with its expressions, binds, local definitions and
 * sub-statements in the order the visitors take them. The same shape serves
 * the parsed tree and the interpreter tree.
 */
module StatementTrees {
  import opened Runtime

  /** An expression node: an identity, the line it starts on, and its sub-expressions. */
  datatype Exp = Exp(id: nat, startLine: int, args: seq<Exp>)

  /** The kinds of definition the definition visitor distinguishes. */
  datatype DefKind =
    | AssignmentKind | BUSClassKind | ClassKind | ClassInvariantKind | CPUClassKind
    | EqualsKind | ExplicitFunctionKind | ExplicitOperationKind | ExternalKind
    | ImplicitFunctionKind | ImplicitOperationKind | ImportedKind | InheritedKind
    | InstanceVariableKind | LocalKind | MultiBindListKind | MutexSyncKind
    | NamedTraceKind | PerSyncKind | RenamedKind | StateKind | SystemKind
    | ThreadKind | TypeKind | UntypedKind | ValueKind

  /** A definition: its kind and, for the kinds that bind one, its initialising expression. */
  datatype Def = Def(kind: DefKind, expression: Option<Exp>)

  /** A bind over a set or a sequence expression, or over a type. */
  datatype Bind = SetBind(setExp: Exp) | SeqBind(seqExp: Exp) | TypeBind

  /** The statement kinds; `Other` is a kind the leaf visitors have no case for. */
  datatype Stmt =
    | Annotated(annotationArgs: seq<Exp>, statement: Stmt)
    | Always(always: Stmt, body: Stmt)
    | Assignment(exp: Exp)
    | Atomic(assignments: seq<Stmt>)
    | Block(assignmentDefs: seq<Def>, statements: seq<Stmt>)
    | CallObject(args: seq<Exp>)
    | Call(args: seq<Exp>)
    | Cases(alternatives: seq<Stmt>)
    | Cycles(cycles: Exp, statement: Stmt)
    | Duration(duration: Exp, statement: Stmt)
    | ElseIf(elseIfExp: Exp, thenStmt: Stmt)
    | Error
    | Exit(optExp: Option<Exp>)
    | ForAll(setExp: Exp, statement: Stmt)
    | ForIndex(fromExp: Exp, toExp: Exp, byExp: Option<Exp>, statement: Stmt)
    | ForPatternBind(bind: Bind, exp: Exp, statement: Stmt)
    | If(ifExp: Exp, thenStmt: Stmt, elseList: seq<Stmt>, elseStmt: Option<Stmt>)
    | LetBeSt(bind: Bind, suchThat: Option<Exp>, statement: Stmt)
    | LetDef(localDefs: seq<Def>, statement: Stmt)
    | Periodic(args: seq<Exp>)
    | Return(optExp: Option<Exp>)
    | SimpleBlock(statements: seq<Stmt>)
    | Skip
    | Specification(precondition: Option<Exp>, postcondition: Option<Exp>)
    | Sporadic(args: seq<Exp>)
    | Start(objects: Exp)
    | Stop(objects: Exp)
    | SubclassResponsibility
    | Tixe(traps: seq<Stmt>, body: Stmt)
    | Trap(bind: Bind, withStmt: Stmt, body: Stmt)
    | While(exp: Exp, statement: Stmt)
    | Other(id: nat)

  /** The nodes of an expression, each before its sub-expressions, left to right. */
  function ExpNodes(e: Exp): (ns: seq<Exp>)
    ensures |ns| >= 1 && ns[0] == e
    decreases e, 1
  {
    [e] + ExpNodesAll(e.args)
  }

  function ExpNodesAll(es: seq<Exp>): seq<Exp>
    decreases es, 0
  {
    if es == [] then [] else ExpNodes(es[0]) + ExpNodesAll(es[1..])
  }

  /** The sub-statements of `s`, in the order the visitors take them. */
  function Children(s: Stmt): (cs: seq<Stmt>)
    ensures forall i :: 0 <= i < |cs| ==> cs[i] < s
  {
    match s
    case Annotated(_, statement) => [statement]
    case Always(always, body) => [always, body]
    case Atomic(assignments) => assignments
    case Block(_, statements) => statements
    case Cases(alternatives) => alternatives
    case Cycles(_, statement) => [statement]
    case Duration(_, statement) => [statement]
    case ElseIf(_, thenStmt) => [thenStmt]
    case ForAll(_, statement) => [statement]
    case ForIndex(_, _, _, statement) => [statement]
    case ForPatternBind(_, _, statement) => [statement]
    case If(_, thenStmt, elseList, elseStmt) =>
      [thenStmt] + elseList + (if elseStmt.Some? then [elseStmt.value] else [])
    case LetBeSt(_, _, statement) => [statement]
    case LetDef(_, statement) => [statement]
    case SimpleBlock(statements) => statements
    case Tixe(traps, body) => traps + [body]
    case Trap(_, withStmt, body) => [withStmt, body]
    case While(_, statement) => [statement]
    case _ => []
  }

  /** Every statement node of `s`, each before its sub-statements. */
  function PreOrder(s: Stmt): (ns: seq<Stmt>)
    ensures |ns| >= 1 && ns[0] == s
    decreases s, 1
  {
    [s] +
    match s
    case Annotated(_, statement) => PreOrder(statement)
    case Always(always, body) => PreOrder(always) + PreOrder(body)
    case Atomic(assignments) => PreOrderAll(assignments)
    case Block(_, statements) => PreOrderAll(statements)
    case Cases(alternatives) => PreOrderAll(alternatives)
    case Cycles(_, statement) => PreOrder(statement)
    case Duration(_, statement) => PreOrder(statement)
    case ElseIf(_, thenStmt) => PreOrder(thenStmt)
    case ForAll(_, statement) => PreOrder(statement)
    case ForIndex(_, _, _, statement) => PreOrder(statement)
    case ForPatternBind(_, _, statement) => PreOrder(statement)
    case If(_, thenStmt, elseList, elseStmt) =>
      PreOrder(thenStmt) + PreOrderAll(elseList) + (if elseStmt.Some? then PreOrder(elseStmt.value) else [])
    case LetBeSt(_, _, statement) => PreOrder(statement)
    case LetDef(_, statement) => PreOrder(statement)
    case SimpleBlock(statements) => PreOrderAll(statements)
    case Tixe(traps, body) => PreOrderAll(traps) + PreOrder(body)
    case Trap(_, withStmt, body) => PreOrder(withStmt) + PreOrder(body)
    case While(_, statement) => PreOrder(statement)
    case _ => []
  }

  function PreOrderAll(ss: seq<Stmt>): seq<Stmt>
    decreases ss, 0
  {
    if ss == [] then [] else PreOrder(ss[0]) + PreOrderAll(ss[1..])
  }

  /** The walk is the statement followed by the walks of its sub-statements, in order. */
  lemma PreOrderChildren(s: Stmt)
    ensures PreOrder(s) == [s] + PreOrderAll(Children(s))
  {
    if s.Always? || s.Trap? || s.If? || s.Tixe? {
      PreOrderChildrenMore(s);
    } else if SingleChild(s) {
      PreOrderChildrenOne(s);
    } else {
      PreOrderChildrenList(s);
    }
  }

  /** The kinds with exactly one sub-statement. */
  predicate SingleChild(s: Stmt)
  {
    s.Annotated? || s.Cycles? || s.Duration? || s.ElseIf? || s.ForAll? ||
    s.ForIndex? || s.ForPatternBind? || s.LetBeSt? || s.LetDef? || s.While?
  }

  lemma PreOrderChildrenOne(s: Stmt)
    requires SingleChild(s)
    ensures PreOrder(s) == [s] + PreOrderAll(Children(s))
  {
    match s {
      case Annotated(_, c) => PreOrderOfOnly(s, c);
      case Cycles(_, c) => PreOrderOfOnly(s, c);
      case Duration(_, c) => PreOrderOfOnly(s, c);
      case ElseIf(_, c) => PreOrderOfOnly(s, c);
      case ForAll(_, c) => PreOrderOfOnly(s, c);
      case ForIndex(_, _, _, c) => PreOrderOfOnly(s, c);
      case ForPatternBind(_, _, c) => PreOrderOfOnly(s, c);
      case LetBeSt(_, _, c) => PreOrderOfOnly(s, c);
      case LetDef(_, c) => PreOrderOfOnly(s, c);
      case While(_, c) => PreOrderOfOnly(s, c);
    }
  }

  lemma PreOrderOfOnly(s: Stmt, c: Stmt)
    requires Children(s) == [c] && PreOrder(s) == [s] + PreOrder(c)
    ensures PreOrder(s) == [s] + PreOrderAll(Children(s))
  {
    PreOrderAllOne(c);
  }

  lemma PreOrderChildrenList(s: Stmt)
    requires !SingleChild(s) && !s.Always? && !s.Trap? && !s.If? && !s.Tixe?
    ensures PreOrder(s) == [s] + PreOrderAll(Children(s))
  {
  }

  lemma PreOrderChildrenMore(s: Stmt)
    requires s.Always? || s.Trap? || s.If? || s.Tixe?
    ensures PreOrder(s) == [s] + PreOrderAll(Children(s))
  {
    if s.If? {
      PreOrderChildrenIf(s);
    } else if s.Tixe? {
      PreOrderChildrenTixe(s);
    } else {
      PreOrderChildrenTwo(s);
    }
  }

  lemma PreOrderChildrenTwo(s: Stmt)
    requires s.Always? || s.Trap?
    ensures PreOrder(s) == [s] + PreOrderAll(Children(s))
  {
    match s {
      case Always(x, y) => PreOrderOfPair(s, x, y);
      case Trap(_, x, y) => PreOrderOfPair(s, x, y);
    }
  }

  lemma PreOrderOfPair(s: Stmt, x: Stmt, y: Stmt)
    requires Children(s) == [x, y] && PreOrder(s) == [s] + (PreOrder(x) + PreOrder(y))
    ensures PreOrder(s) == [s] + PreOrderAll(Children(s))
  {
    PreOrderAllTwo(x, y);
  }

  lemma PreOrderChildrenTixe(s: Stmt)
    requires s.Tixe?
    ensures PreOrder(s) == [s] + PreOrderAll(Children(s))
  {
    assert Children(s) == s.traps + [s.body];
    assert PreOrder(s) == [s] + (PreOrderAll(s.traps) + PreOrder(s.body));
    PreOrderAllAppend(s.traps, [s.body]);
    PreOrderAllOne(s.body);
  }

  lemma PreOrderChildrenIf(s: Stmt)
    requires s.If?
    ensures PreOrder(s) == [s] + PreOrderAll(Children(s))
  {
    var tail := if s.elseStmt.Some? then [s.elseStmt.value] else [];
    assert Children(s) == [s.thenStmt] + s.elseList + tail;
    PreOrderAllAppend([s.thenStmt] + s.elseList, tail);
    PreOrderAllAppend([s.thenStmt], s.elseList);
    PreOrderAllOne(s.thenStmt);
    if s.elseStmt.Some? {
      PreOrderAllOne(s.elseStmt.value);
    }
  }

  lemma PreOrderAllOne(x: Stmt)
    ensures PreOrderAll([x]) == PreOrder(x)
  {
    assert [x][1..] == [];
  }

  lemma PreOrderAllTwo(x: Stmt, y: Stmt)
    ensures PreOrderAll([x, y]) == PreOrder(x) + PreOrder(y)
  {
    assert [x, y][1..] == [y];
    PreOrderAllOne(y);
  }

  /** Walking a concatenation of statement lists walks each in turn. */
  lemma {:induction false} PreOrderAllAppend(a: seq<Stmt>, b: seq<Stmt>)
    ensures PreOrderAll(a + b) == PreOrderAll(a) + PreOrderAll(b)
    decreases |a|
  {
    if a != [] {
      assert (a + b)[0] == a[0];
      assert (a + b)[1..] == a[1..] + b;
      PreOrderAllAppend(a[1..], b);
    } else {
      assert a + b == b;
    }
  }

  /** Every node the walk visits lies inside the statement it starts from. */
  lemma {:induction false} PreOrderWithin(s: Stmt)
    ensures forall i :: 0 < i < |PreOrder(s)| ==> PreOrder(s)[i] < s
    decreases s, 1
  {
    PreOrderChildren(s);
    PreOrderAllWithin(Children(s), s);
  }

  lemma {:induction false} PreOrderAllWithin(ss: seq<Stmt>, s: Stmt)
    requires forall i :: 0 <= i < |ss| ==> ss[i] < s
    ensures forall i :: 0 <= i < |PreOrderAll(ss)| ==> PreOrderAll(ss)[i] < s
    decreases s, 0, |ss|
  {
    if ss != [] {
      PreOrderWithin(ss[0]);
      PreOrderAllWithin(ss[1..], s);
      var h := PreOrder(ss[0]);
      var t := PreOrderAll(ss[1..]);
      forall i | 0 <= i < |h + t| ensures (h + t)[i] < s {
        if i < |h| {
          assert (h + t)[i] == h[i];
        } else {
          assert (h + t)[i] == t[i - |h|];
        }
      }
    }
  }
}
