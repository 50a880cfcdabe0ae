/**
 * The leaf-collecting statement visitor of the interpreter tree
 * (FJ-VDMJ4 in/statements/INLeafStatementVisitor.java). Visiting a statement
 * collects, in order: the node-level result when the visitor visits every
 * node (`allNodes`), the results of its own expressions (through the
 * expression visitor, if there is one), binds and local definitions (through
 * the definition visitor, if there is one), and then the results of its
 * sub-statements. Collections are lists, so results are concatenated.
 */
module INStatements {
  import opened Runtime
  import opened StatementTrees

  /**
   * A visitor: whether it visits every node, its `caseNonLeafNode` if it
   * overrides it, its expression and definition visitors if it has them, and
   * its `caseStatement` for kinds without a case of their own.
   */
  datatype Visitor<E> = Visitor(
    allNodes: bool,
    nonLeaf: Option<Stmt -> seq<E>>,
    expVisitor: Option<Exp -> seq<E>>,
    defVisitor: Option<Def -> seq<E>>,
    caseStatement: Stmt -> seq<E>)

  const NonLeafMessage := "caseNonLeafNode must be overridden if allNodes is set"

  /** A visitor that can start a case: it either skips node-level results or supplies them. */
  predicate Ready<E>(v: Visitor<E>)
  {
    !v.allNodes || v.nonLeaf.Some?
  }

  /** The collection a case starts from. */
  function Initial<E>(v: Visitor<E>, s: Stmt): seq<E>
    requires Ready(v)
  {
    if v.allNodes then v.nonLeaf.value(s) else []
  }

  /** The results of an expression, or none without an expression visitor. */
  function ExpResult<E>(v: Visitor<E>, e: Exp): seq<E>
  {
    if v.expVisitor.Some? then v.expVisitor.value(e) else []
  }

  function OptExpResult<E>(v: Visitor<E>, e: Option<Exp>): seq<E>
  {
    if e.Some? then ExpResult(v, e.value) else []
  }

  function ExpsResult<E>(v: Visitor<E>, es: seq<Exp>): seq<E>
  {
    if v.expVisitor.None? || es == [] then [] else ExpResult(v, es[0]) + ExpsResult(v, es[1..])
  }

  function DefsResult<E>(v: Visitor<E>, ds: seq<Def>): seq<E>
  {
    if v.defVisitor.None? || ds == [] then [] else v.defVisitor.value(ds[0]) + DefsResult(v, ds[1..])
  }

  /** `caseBind` and `caseMultipleBind`: a set or sequence bind gives its expression's results; a type bind nothing. */
  function BindResult<E>(v: Visitor<E>, b: Bind): seq<E>
  {
    match b
    case SetBind(setExp) => ExpResult(v, setExp)
    case SeqBind(seqExp) => ExpResult(v, seqExp)
    case TypeBind => []
  }

  /** The results of visiting `s`, case by case. */
  function Collect<E>(v: Visitor<E>, s: Stmt): seq<E>
    requires Ready(v)
    decreases s, 1
  {
    match s
    case Annotated(args, statement) => Initial(v, s) + ExpsResult(v, args) + Collect(v, statement)
    case Always(always, body) => Initial(v, s) + Collect(v, always) + Collect(v, body)
    case Assignment(exp) => Initial(v, s) + ExpResult(v, exp)
    case Atomic(assignments) => Initial(v, s) + CollectAll(v, assignments)
    case Block(assignmentDefs, statements) => Initial(v, s) + DefsResult(v, assignmentDefs) + CollectAll(v, statements)
    case CallObject(args) => Initial(v, s) + ExpsResult(v, args)
    case Call(args) => Initial(v, s) + ExpsResult(v, args)
    case Cases(alternatives) => Initial(v, s) + CollectAll(v, alternatives)
    case Cycles(cycles, statement) => Initial(v, s) + ExpResult(v, cycles) + Collect(v, statement)
    case Duration(duration, statement) => Initial(v, s) + ExpResult(v, duration) + Collect(v, statement)
    case ElseIf(elseIfExp, thenStmt) => Initial(v, s) + ExpResult(v, elseIfExp) + Collect(v, thenStmt)
    case Error => Initial(v, s)
    case Exit(optExp) => Initial(v, s) + OptExpResult(v, optExp)
    case ForAll(setExp, statement) => Initial(v, s) + ExpResult(v, setExp) + Collect(v, statement)
    case ForIndex(fromExp, toExp, byExp, statement) =>
      Initial(v, s) + ExpResult(v, fromExp) + ExpResult(v, toExp) + OptExpResult(v, byExp) + Collect(v, statement)
    case ForPatternBind(bind, exp, statement) =>
      Initial(v, s) + BindResult(v, bind) + ExpResult(v, exp) + Collect(v, statement)
    case If(ifExp, thenStmt, elseList, elseStmt) =>
      Initial(v, s) + ExpResult(v, ifExp) + Collect(v, thenStmt) + CollectAll(v, elseList) +
      (if elseStmt.Some? then Collect(v, elseStmt.value) else [])
    case LetBeSt(bind, suchThat, statement) =>
      Initial(v, s) + BindResult(v, bind) + OptExpResult(v, suchThat) + Collect(v, statement)
    case LetDef(localDefs, statement) => Initial(v, s) + DefsResult(v, localDefs) + Collect(v, statement)
    case Periodic(args) => Initial(v, s) + ExpsResult(v, args)
    case Return(optExp) => Initial(v, s) + OptExpResult(v, optExp)
    case SimpleBlock(statements) => Initial(v, s) + CollectAll(v, statements)
    case Skip => Initial(v, s)
    case Specification(precondition, postcondition) =>
      Initial(v, s) + OptExpResult(v, precondition) + OptExpResult(v, postcondition)
    case Sporadic(args) => Initial(v, s) + ExpsResult(v, args)
    case Start(objects) => Initial(v, s) + ExpResult(v, objects)
    case Stop(objects) => Initial(v, s) + ExpResult(v, objects)
    case SubclassResponsibility => Initial(v, s)
    case Tixe(traps, body) => Initial(v, s) + CollectAll(v, traps) + Collect(v, body)
    case Trap(bind, withStmt, body) => Initial(v, s) + BindResult(v, bind) + Collect(v, withStmt) + Collect(v, body)
    case While(exp, statement) => Initial(v, s) + ExpResult(v, exp) + Collect(v, statement)
    case Other(_) => v.caseStatement(s)
  }

  function CollectAll<E>(v: Visitor<E>, ss: seq<Stmt>): seq<E>
    requires Ready(v)
    decreases ss, 0
  {
    if ss == [] then [] else Collect(v, ss[0]) + CollectAll(v, ss[1..])
  }

  /**
   * `apply`: a visitor that visits every node but does not override
   * `caseNonLeafNode` throws on the first statement that has a case, before
   * collecting anything; otherwise the result is the collection.
   */
  function Apply<E>(v: Visitor<E>, s: Stmt): (r: Result<seq<E>, RuntimeException>)
    ensures r.Err? <==> v.allNodes && v.nonLeaf.None? && !s.Other?
    ensures r.Err? ==> r.error == OtherException(NonLeafMessage)
  {
    if s.Other? then Ok(v.caseStatement(s))
    else if !Ready(v) then Err(OtherException(NonLeafMessage))
    else Ok(Collect(v, s))
  }

  /** What a single statement node contributes on its own, without its sub-statements. */
  function Local<E>(v: Visitor<E>, s: Stmt): seq<E>
    requires Ready(v)
  {
    match s
    case Annotated(args, _) => Initial(v, s) + ExpsResult(v, args)
    case Assignment(exp) => Initial(v, s) + ExpResult(v, exp)
    case Block(assignmentDefs, _) => Initial(v, s) + DefsResult(v, assignmentDefs)
    case CallObject(args) => Initial(v, s) + ExpsResult(v, args)
    case Call(args) => Initial(v, s) + ExpsResult(v, args)
    case Cycles(cycles, _) => Initial(v, s) + ExpResult(v, cycles)
    case Duration(duration, _) => Initial(v, s) + ExpResult(v, duration)
    case ElseIf(elseIfExp, _) => Initial(v, s) + ExpResult(v, elseIfExp)
    case Exit(optExp) => Initial(v, s) + OptExpResult(v, optExp)
    case ForAll(setExp, _) => Initial(v, s) + ExpResult(v, setExp)
    case ForIndex(fromExp, toExp, byExp, _) =>
      Initial(v, s) + ExpResult(v, fromExp) + ExpResult(v, toExp) + OptExpResult(v, byExp)
    case ForPatternBind(bind, exp, _) => Initial(v, s) + BindResult(v, bind) + ExpResult(v, exp)
    case If(ifExp, _, _, _) => Initial(v, s) + ExpResult(v, ifExp)
    case LetBeSt(bind, suchThat, _) => Initial(v, s) + BindResult(v, bind) + OptExpResult(v, suchThat)
    case LetDef(localDefs, _) => Initial(v, s) + DefsResult(v, localDefs)
    case Periodic(args) => Initial(v, s) + ExpsResult(v, args)
    case Return(optExp) => Initial(v, s) + OptExpResult(v, optExp)
    case Specification(precondition, postcondition) =>
      Initial(v, s) + OptExpResult(v, precondition) + OptExpResult(v, postcondition)
    case Sporadic(args) => Initial(v, s) + ExpsResult(v, args)
    case Start(objects) => Initial(v, s) + ExpResult(v, objects)
    case Stop(objects) => Initial(v, s) + ExpResult(v, objects)
    case Trap(bind, _, _) => Initial(v, s) + BindResult(v, bind)
    case While(exp, _) => Initial(v, s) + ExpResult(v, exp)
    case Other(_) => v.caseStatement(s)
    case _ => Initial(v, s)
  }

  /** The kinds whose own contribution is a single expression's results. */
  predicate OneExp(s: Stmt)
  {
    s.Assignment? || s.Cycles? || s.Duration? || s.ElseIf? || s.ForAll? ||
    s.If? || s.While? || s.Start? || s.Stop?
  }

  /** That expression. */
  function OwnExp(s: Stmt): Exp
    requires OneExp(s)
  {
    match s
    case Assignment(e) => e
    case Cycles(e, _) => e
    case Duration(e, _) => e
    case ElseIf(e, _) => e
    case ForAll(e, _) => e
    case If(e, _, _, _) => e
    case While(e, _) => e
    case Start(e) => e
    case Stop(e) => e
  }

  lemma LocalOfOneExp<E>(v: Visitor<E>, s: Stmt)
    requires Ready(v) && OneExp(s)
    ensures Local(v, s) == Initial(v, s) + ExpResult(v, OwnExp(s))
  {
  }

  /** A specification statement contributes its pre- and postcondition results after an empty start. */
  lemma LocalOfSpecification<E>(v: Visitor<E>, s: Stmt)
    requires Ready(v) && s.Specification? && Initial(v, s) == []
    ensures Local(v, s) == OptExpResult(v, s.precondition) + OptExpResult(v, s.postcondition)
  {
    var x := OptExpResult(v, s.precondition);
    assert Initial(v, s) + x == x;
  }

  /** A single-scope let statement collects its definitions' results, then its body's. */
  lemma CollectOfLetDef<E>(v: Visitor<E>, s: Stmt)
    requires Ready(v) && s.LetDef? && Initial(v, s) == []
    ensures Collect(v, s) == DefsResult(v, s.localDefs) + Collect(v, s.statement)
  {
    var x := DefsResult(v, s.localDefs);
    assert Initial(v, s) + x == x;
  }

  /** The kinds whose own contribution is an argument list's results. */
  predicate ArgsNode(s: Stmt)
  {
    s.Annotated? || s.CallObject? || s.Call? || s.Periodic? || s.Sporadic?
  }

  function OwnArgs(s: Stmt): seq<Exp>
    requires ArgsNode(s)
  {
    if s.Annotated? then s.annotationArgs else s.args
  }

  lemma LocalOfArgs<E>(v: Visitor<E>, s: Stmt)
    requires Ready(v) && ArgsNode(s)
    ensures Local(v, s) == Initial(v, s) + ExpsResult(v, OwnArgs(s))
  {
  }

  /** The kinds whose own contribution is their local definitions' results. */
  predicate DefsNode(s: Stmt)
  {
    s.Block? || s.LetDef?
  }

  function OwnDefs(s: Stmt): seq<Def>
    requires DefsNode(s)
  {
    if s.Block? then s.assignmentDefs else s.localDefs
  }

  lemma LocalOfDefs<E>(v: Visitor<E>, s: Stmt)
    requires Ready(v) && DefsNode(s)
    ensures Local(v, s) == Initial(v, s) + DefsResult(v, OwnDefs(s))
  {
  }

  /** The local contributions of a list of statement nodes, in order. */
  function LocalAll<E>(v: Visitor<E>, ns: seq<Stmt>): seq<E>
    requires Ready(v)
  {
    if ns == [] then [] else Local(v, ns[0]) + LocalAll(v, ns[1..])
  }

  lemma {:induction false} LocalAllAppend<E>(v: Visitor<E>, a: seq<Stmt>, b: seq<Stmt>)
    requires Ready(v)
    ensures LocalAll(v, a + b) == LocalAll(v, a) + LocalAll(v, b)
    decreases |a|
  {
    if a == [] {
      assert a + b == b;
    } else {
      assert (a + b)[1..] == a[1..] + b;
      LocalAllAppend(v, a[1..], b);
    }
  }

  lemma {:induction false} CollectAllAppend<E>(v: Visitor<E>, a: seq<Stmt>, b: seq<Stmt>)
    requires Ready(v)
    ensures CollectAll(v, a + b) == CollectAll(v, a) + CollectAll(v, b)
    decreases |a|
  {
    if a == [] {
      assert a + b == b;
    } else {
      assert (a + b)[1..] == a[1..] + b;
      CollectAllAppend(v, a[1..], b);
    }
  }

  lemma {:induction false} DefsResultAppend<E>(v: Visitor<E>, a: seq<Def>, b: seq<Def>)
    ensures DefsResult(v, a + b) == DefsResult(v, a) + DefsResult(v, b)
    decreases |a|
  {
    if a == [] {
      assert a + b == b;
    } else if v.defVisitor.Some? {
      assert (a + b)[1..] == a[1..] + b;
      DefsResultAppend(v, a[1..], b);
    }
  }

  lemma CollectAllOne<E>(v: Visitor<E>, x: Stmt)
    requires Ready(v)
    ensures CollectAll(v, [x]) == Collect(v, x)
  {
    assert [x][1..] == [];
  }

  lemma CollectAllTwo<E>(v: Visitor<E>, x: Stmt, y: Stmt)
    requires Ready(v)
    ensures CollectAll(v, [x, y]) == Collect(v, x) + Collect(v, y)
  {
    assert [x, y][1..] == [y];
    CollectAllOne(v, y);
  }

  /** Each case is the node's own contribution followed by its sub-statements' results, in order. */
  lemma CollectIsLocalThenChildren<E>(v: Visitor<E>, s: Stmt)
    requires Ready(v)
    ensures Collect(v, s) == Local(v, s) + CollectAll(v, Children(s))
  {
    if s.If? {
      CollectIsLocalThenChildrenIf(v, s);
    } else if s.Tixe? {
      CollectTixe(v, s);
    } else if s.Always? || s.Trap? {
      CollectTwoParts(v, s);
    } else if SingleChild(s) {
      CollectOneChild(v, s);
    } else if s.Atomic? || s.Block? || s.Cases? || s.SimpleBlock? {
      CollectListChildren(v, s);
    } else {
      CollectLeaf(v, s);
    }
  }

  lemma LocalThenOnly<E>(v: Visitor<E>, s: Stmt, c: Stmt)
    requires Ready(v) && Children(s) == [c] && Collect(v, s) == Local(v, s) + Collect(v, c)
    ensures Collect(v, s) == Local(v, s) + CollectAll(v, Children(s))
  {
    CollectAllOne(v, c);
  }

  lemma CollectOneChild<E>(v: Visitor<E>, s: Stmt)
    requires Ready(v) && SingleChild(s)
    ensures Collect(v, s) == Local(v, s) + CollectAll(v, Children(s))
  {
    match s {
      case Annotated(_, c) => LocalThenOnly(v, s, c);
      case Cycles(_, c) => LocalThenOnly(v, s, c);
      case Duration(_, c) => LocalThenOnly(v, s, c);
      case ElseIf(_, c) => LocalThenOnly(v, s, c);
      case ForAll(_, c) => LocalThenOnly(v, s, c);
      case ForIndex(_, _, _, c) => LocalThenOnly(v, s, c);
      case ForPatternBind(_, _, c) => LocalThenOnly(v, s, c);
      case LetBeSt(_, _, c) => LocalThenOnly(v, s, c);
      case LetDef(_, c) => LocalThenOnly(v, s, c);
      case While(_, c) => LocalThenOnly(v, s, c);
    }
  }

  lemma CollectTwoParts<E>(v: Visitor<E>, s: Stmt)
    requires Ready(v) && (s.Always? || s.Trap?)
    ensures Collect(v, s) == Local(v, s) + CollectAll(v, Children(s))
  {
    var (x, y) := if s.Always? then (s.always, s.body) else (s.withStmt, s.body);
    assert Children(s) == [x, y];
    assert Collect(v, s) == Local(v, s) + Collect(v, x) + Collect(v, y);
    CollectAllTwo(v, x, y);
  }

  lemma CollectTixe<E>(v: Visitor<E>, s: Stmt)
    requires Ready(v) && s.Tixe?
    ensures Collect(v, s) == Local(v, s) + CollectAll(v, Children(s))
  {
    assert Children(s) == s.traps + [s.body];
    assert Collect(v, s) == Local(v, s) + CollectAll(v, s.traps) + Collect(v, s.body);
    CollectAllAppend(v, s.traps, [s.body]);
    CollectAllOne(v, s.body);
  }

  lemma CollectListChildren<E>(v: Visitor<E>, s: Stmt)
    requires Ready(v) && (s.Atomic? || s.Block? || s.Cases? || s.SimpleBlock?)
    ensures Collect(v, s) == Local(v, s) + CollectAll(v, Children(s))
  {
    assert Children(s) == (if s.Block? || s.SimpleBlock? then s.statements
                           else if s.Atomic? then s.assignments else s.alternatives);
  }

  lemma CollectLeaf<E>(v: Visitor<E>, s: Stmt)
    requires Ready(v) && !SingleChild(s)
    requires !(s.Atomic? || s.Block? || s.Cases? || s.SimpleBlock? || s.If? || s.Tixe? || s.Always? || s.Trap?)
    ensures Collect(v, s) == Local(v, s) + CollectAll(v, Children(s))
  {
    assert Children(s) == [];
  }

  lemma CollectIsLocalThenChildrenIf<E>(v: Visitor<E>, s: Stmt)
    requires Ready(v) && s.If?
    ensures Collect(v, s) == Local(v, s) + CollectAll(v, Children(s))
  {
    var tail := if s.elseStmt.Some? then [s.elseStmt.value] else [];
    var thenResult, elseListResult := Collect(v, s.thenStmt), CollectAll(v, s.elseList);
    var tailResult := if s.elseStmt.Some? then Collect(v, s.elseStmt.value) else [];
    assert Collect(v, s) == Local(v, s) + thenResult + elseListResult + tailResult;
    assert CollectAll(v, Children(s)) == thenResult + elseListResult + tailResult by {
      assert Children(s) == [s.thenStmt] + s.elseList + tail;
      CollectAllAppend(v, [s.thenStmt] + s.elseList, tail);
      CollectAllAppend(v, [s.thenStmt], s.elseList);
      CollectAllOne(v, s.thenStmt);
      if s.elseStmt.Some? {
        CollectAllOne(v, s.elseStmt.value);
      }
    }
    ConcatAssoc4(Local(v, s), thenResult, elseListResult, tailResult);
  }

  lemma ConcatAssoc4<E>(a: seq<E>, b: seq<E>, c: seq<E>, d: seq<E>)
    ensures a + b + c + d == a + (b + c + d)
  {
  }

  /**
   * The visitor's result is the concatenation of every statement node's own
   * contribution, in the order of a pre-order walk of the statement tree.
   */
  lemma {:induction false} CollectIsPreOrderFold<E>(v: Visitor<E>, s: Stmt)
    requires Ready(v)
    ensures Collect(v, s) == LocalAll(v, PreOrder(s))
    decreases s, 1
  {
    CollectIsLocalThenChildren(v, s);
    PreOrderChildren(s);
    CollectAllIsPreOrderFold(v, Children(s), s);
    assert LocalAll(v, [s]) == Local(v, s) by {
      assert [s][1..] == [];
    }
    LocalAllAppend(v, [s], PreOrderAll(Children(s)));
  }

  lemma {:induction false} CollectAllIsPreOrderFold<E>(v: Visitor<E>, ss: seq<Stmt>, parent: Stmt)
    requires Ready(v)
    requires forall i :: 0 <= i < |ss| ==> ss[i] < parent
    ensures CollectAll(v, ss) == LocalAll(v, PreOrderAll(ss))
    decreases parent, 0, |ss|
  {
    if ss != [] {
      CollectIsPreOrderFold(v, ss[0]);
      CollectAllIsPreOrderFold(v, ss[1..], parent);
      LocalAllAppend(v, PreOrder(ss[0]), PreOrderAll(ss[1..]));
    }
  }

  /**
   * Without expression and definition visitors, a visitor that visits every
   * node still visits every sub-statement: its result is the node-level
   * results of the pre-order walk, and nothing else.
   */
  lemma NodesOnlyWithoutSubVisitors<E>(v: Visitor<E>, s: Stmt)
    requires v.allNodes && v.nonLeaf.Some? && v.expVisitor.None? && v.defVisitor.None?
    ensures Collect(v, s) == NodeResults(v, PreOrder(s))
  {
    CollectIsPreOrderFold(v, s);
    LocalAllIsNodeResults(v, PreOrder(s));
  }

  /** The node-level results of a list of nodes, with `caseStatement` for kinds without a case. */
  function NodeResults<E>(v: Visitor<E>, ns: seq<Stmt>): seq<E>
    requires v.nonLeaf.Some?
  {
    if ns == [] then []
    else (if ns[0].Other? then v.caseStatement(ns[0]) else v.nonLeaf.value(ns[0])) + NodeResults(v, ns[1..])
  }

  lemma {:induction false} LocalAllIsNodeResults<E>(v: Visitor<E>, ns: seq<Stmt>)
    requires v.allNodes && v.nonLeaf.Some? && v.expVisitor.None? && v.defVisitor.None?
    ensures LocalAll(v, ns) == NodeResults(v, ns)
    decreases |ns|
  {
    if ns != [] {
      LocalAllIsNodeResults(v, ns[1..]);
      LocalIsNodeResult(v, ns[0]);
    }
  }

  lemma LocalIsNodeResult<E>(v: Visitor<E>, s: Stmt)
    requires v.allNodes && v.nonLeaf.Some? && v.expVisitor.None? && v.defVisitor.None?
    ensures Local(v, s) == (if s.Other? then v.caseStatement(s) else v.nonLeaf.value(s))
  {
    if OneExp(s) {
      LocalOfOneExp(v, s);
      assert Initial(v, s) + [] == Initial(v, s);
    } else if ArgsNode(s) {
      LocalOfArgs(v, s);
      assert Initial(v, s) + [] == Initial(v, s);
    } else if DefsNode(s) {
      LocalOfDefs(v, s);
      assert Initial(v, s) + [] == Initial(v, s);
    } else {
      LocalIsNodeResultRest(v, s);
    }
  }

  lemma LocalIsNodeResultRest<E>(v: Visitor<E>, s: Stmt)
    requires v.allNodes && v.nonLeaf.Some? && v.expVisitor.None? && v.defVisitor.None?
    requires !OneExp(s) && !ArgsNode(s) && !DefsNode(s)
    ensures Local(v, s) == (if s.Other? then v.caseStatement(s) else v.nonLeaf.value(s))
  {
    var n := Initial(v, s);
    assert n + [] == n && n + [] + [] == n;
  }

  /**
   * A block collects, after its node-level result, its assignment
   * definitions' results first, then its statements' results in order.
   */
  lemma BlockOrder<E>(v: Visitor<E>, defs: seq<Def>, stmts: seq<Stmt>)
    requires Ready(v)
    ensures Collect(v, Block(defs, stmts)) == Initial(v, Block(defs, stmts)) + DefsResult(v, defs) + CollectAll(v, stmts)
  {
  }

  /**
   * An `if` collects, after its node-level result, its condition, then-branch,
   * each else-if and the else-branch if there is one, in that order.
   */
  lemma IfOrder<E>(v: Visitor<E>, ifExp: Exp, thenStmt: Stmt, elseList: seq<Stmt>, elseStmt: Option<Stmt>)
    requires Ready(v)
    ensures Collect(v, If(ifExp, thenStmt, elseList, elseStmt)) ==
      Initial(v, If(ifExp, thenStmt, elseList, elseStmt)) + ExpResult(v, ifExp) + Collect(v, thenStmt) +
      CollectAll(v, elseList) + (if elseStmt.Some? then Collect(v, elseStmt.value) else [])
  {
  }

  /** Skip, error and subclass-responsibility statements give only the node-level result. */
  lemma NodeOnlyStatements<E>(v: Visitor<E>, s: Stmt)
    requires Ready(v) && (s.Skip? || s.Error? || s.SubclassResponsibility?)
    ensures Collect(v, s) == (if v.allNodes then v.nonLeaf.value(s) else [])
  {
  }

  /** A `tixe` collects, after its node-level result, its trap alternatives before its body. */
  lemma TixeOrder<E>(v: Visitor<E>, traps: seq<Stmt>, body: Stmt)
    requires Ready(v)
    ensures Collect(v, Tixe(traps, body)) == Initial(v, Tixe(traps, body)) + CollectAll(v, traps) + Collect(v, body)
  {
  }

  /** A type bind contributes nothing; a set or sequence bind contributes its expression's results. */
  lemma BindContribution<E>(v: Visitor<E>, b: Bind)
    ensures b.TypeBind? ==> BindResult(v, b) == []
    ensures b.SetBind? ==> BindResult(v, b) == ExpResult(v, b.setExp)
    ensures b.SeqBind? ==> BindResult(v, b) == ExpResult(v, b.seqExp)
  {
  }
}
