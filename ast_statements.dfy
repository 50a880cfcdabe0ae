/**
 * The leaf-collecting statement visitor of the parsed tree
 * (FJ-VDMJ4 ast/statements/ASTLeafStatementVisitor.java). It has no
 * node-level results: each case collects the results of its own
 * expressions (through the expression visitor, if there is one), binds and
 * local definitions (through the definition visitor, if there is one), and
 * of its sub-statements, in order. Annotated statements and kinds without a
 * case go to `caseStatement`.
 */
module ASTStatements {
  import opened Runtime
  import opened StatementTrees
  import IN = INStatements

  /** A visitor: its expression and definition visitors if it has them, and its `caseStatement`. */
  datatype Visitor<E> = Visitor(
    expVisitor: Option<Exp -> seq<E>>,
    defVisitor: Option<Def -> seq<E>>,
    caseStatement: Stmt -> seq<E>)

  /**
   * The interpreter-stage visitor with the same expression and definition
   * visitors that does not visit every node; its part results (an
   * expression, a list of them, a bind, definitions) are the ones the
   * parsed-tree cases collect.
   */
  function Leaf<E>(v: Visitor<E>): (w: IN.Visitor<E>)
    ensures IN.Ready(w) && !w.allNodes
    ensures w.expVisitor == v.expVisitor && w.defVisitor == v.defVisitor
  {
    IN.Visitor(false, None, v.expVisitor, v.defVisitor, v.caseStatement)
  }

  /** The results of visiting `s`, case by case. */
  function Collect<E>(v: Visitor<E>, s: Stmt): seq<E>
    decreases s, 1
  {
    var w := Leaf(v);
    match s
    case Always(always, body) => Collect(v, always) + Collect(v, body)
    case Assignment(exp) => IN.ExpResult(w, exp)
    case Atomic(assignments) => CollectAll(v, assignments)
    case Block(assignmentDefs, statements) => IN.DefsResult(w, assignmentDefs) + CollectAll(v, statements)
    case CallObject(args) => IN.ExpsResult(w, args)
    case Call(args) => IN.ExpsResult(w, args)
    case Cases(alternatives) => CollectAll(v, alternatives)
    case Cycles(cycles, statement) => IN.ExpResult(w, cycles) + Collect(v, statement)
    case Duration(duration, statement) => IN.ExpResult(w, duration) + Collect(v, statement)
    case ElseIf(elseIfExp, thenStmt) => IN.ExpResult(w, elseIfExp) + Collect(v, thenStmt)
    case Error => []
    case Exit(optExp) => IN.OptExpResult(w, optExp)
    case ForAll(setExp, statement) => IN.ExpResult(w, setExp) + Collect(v, statement)
    case ForIndex(fromExp, toExp, byExp, statement) =>
      IN.ExpResult(w, fromExp) + IN.ExpResult(w, toExp) + IN.OptExpResult(w, byExp) + Collect(v, statement)
    case ForPatternBind(bind, exp, statement) =>
      IN.BindResult(w, bind) + IN.ExpResult(w, exp) + Collect(v, statement)
    case If(ifExp, thenStmt, elseList, elseStmt) =>
      IN.ExpResult(w, ifExp) + Collect(v, thenStmt) + CollectAll(v, elseList) +
      (if elseStmt.Some? then Collect(v, elseStmt.value) else [])
    case LetBeSt(bind, suchThat, statement) =>
      IN.BindResult(w, bind) + IN.OptExpResult(w, suchThat) + Collect(v, statement)
    case LetDef(localDefs, statement) => IN.DefsResult(w, localDefs) + Collect(v, statement)
    case Periodic(args) => IN.ExpsResult(w, args)
    case Return(optExp) => IN.OptExpResult(w, optExp)
    case SimpleBlock(statements) => CollectAll(v, statements)
    case Skip => []
    case Specification(precondition, postcondition) =>
      IN.OptExpResult(w, precondition) + IN.OptExpResult(w, postcondition)
    case Sporadic(args) => IN.ExpsResult(w, args)
    case Start(objects) => IN.ExpResult(w, objects)
    case Stop(objects) => IN.ExpResult(w, objects)
    case SubclassResponsibility => []
    case Tixe(traps, body) => CollectAll(v, traps) + Collect(v, body)
    case Trap(bind, withStmt, body) => IN.BindResult(w, bind) + Collect(v, withStmt) + Collect(v, body)
    case While(exp, statement) => IN.ExpResult(w, exp) + Collect(v, statement)
    case Annotated(_, _) => v.caseStatement(s)
    case Other(_) => v.caseStatement(s)
  }

  function CollectAll<E>(v: Visitor<E>, ss: seq<Stmt>): seq<E>
    decreases ss, 0
  {
    if ss == [] then [] else Collect(v, ss[0]) + CollectAll(v, ss[1..])
  }

  lemma {:induction false} CollectAllAppend<E>(v: Visitor<E>, a: seq<Stmt>, b: seq<Stmt>)
    ensures CollectAll(v, a + b) == CollectAll(v, a) + CollectAll(v, b)
    decreases |a|
  {
    if a == [] {
      assert a + b == b;
    } else {
      assert (a + b)[1..] == a[1..] + b;
      CollectAllAppend(v, a[1..], b);
    }
  }

  /**
   * `caseBlockStatement` as the source runs it: the definition visitor's
   * results for each assignment definition, then each statement's results,
   * appended to one collection.
   */
  method CaseBlock<E>(v: Visitor<E>, assignmentDefs: seq<Def>, statements: seq<Stmt>) returns (all: seq<E>)
    ensures all == Collect(v, Block(assignmentDefs, statements))
  {
    all := [];
    if v.defVisitor.Some? {
      for i := 0 to |assignmentDefs|
        invariant all == IN.DefsResult(Leaf(v), assignmentDefs[..i])
      {
        IN.DefsResultAppend(Leaf(v), assignmentDefs[..i], [assignmentDefs[i]]);
        assert assignmentDefs[..i + 1] == assignmentDefs[..i] + [assignmentDefs[i]];
        all := all + v.defVisitor.value(assignmentDefs[i]);
      }
      assert assignmentDefs[..|assignmentDefs|] == assignmentDefs;
    }
    for i := 0 to |statements|
      invariant all == IN.DefsResult(Leaf(v), assignmentDefs) + CollectAll(v, statements[..i])
    {
      CollectAllAppend(v, statements[..i], [statements[i]]);
      assert statements[..i + 1] == statements[..i] + [statements[i]];
      assert CollectAll(v, [statements[i]]) == Collect(v, statements[i]) by {
        assert [statements[i]][1..] == [];
      }
      all := all + Collect(v, statements[i]);
    }
    assert statements[..|statements|] == statements;
  }

  /** No annotated statement occurs anywhere in `s`. */
  predicate Unannotated(s: Stmt)
  {
    !s.Annotated? && forall i :: 0 <= i < |Children(s)| ==> Unannotated(Children(s)[i])
  }

  /**
   * Away from annotations, the parsed-tree visitor collects exactly what the
   * interpreter-stage visitor with the same sub-visitors collects when it
   * does not visit every node: the same parts, in the same order.
   */
  lemma {:induction false} AgreesWithInterpreter<E>(v: Visitor<E>, s: Stmt)
    requires Unannotated(s)
    ensures Collect(v, s) == IN.Collect(Leaf(v), s)
    decreases s, 2
  {
    if s.If? {
      AgreesIf(v, s);
    } else if s.Tixe? || s.Always? || s.Trap? {
      AgreesTwoParts(v, s);
    } else if s.Cycles? || s.Duration? || s.ElseIf? || s.ForAll? || s.While? {
      AgreesOneExpOneChild(v, s);
    } else if s.ForIndex? || s.ForPatternBind? || s.LetBeSt? || s.LetDef? {
      AgreesMoreThenChild(v, s);
    } else if s.Atomic? || s.Block? || s.Cases? || s.SimpleBlock? {
      AgreesLists(v, s);
    } else {
      AgreesLeaf(v, s);
    }
  }

  lemma {:induction false} AgreesAll<E>(v: Visitor<E>, ss: seq<Stmt>, parent: Stmt)
    requires forall i :: 0 <= i < |ss| ==> ss[i] < parent && Unannotated(ss[i])
    ensures CollectAll(v, ss) == IN.CollectAll(Leaf(v), ss)
    decreases parent, 0, |ss|
  {
    if ss != [] {
      AgreesWithInterpreter(v, ss[0]);
      AgreesAll(v, ss[1..], parent);
    }
  }

  lemma ChildUnannotated(s: Stmt, c: Stmt)
    requires Unannotated(s) && c in Children(s)
    ensures c < s && Unannotated(c)
  {
  }

  lemma {:induction false} AgreesIf<E>(v: Visitor<E>, s: Stmt)
    requires s.If? && Unannotated(s)
    ensures Collect(v, s) == IN.Collect(Leaf(v), s)
    decreases s, 1
  {
    var w := Leaf(v);
    var tail := if s.elseStmt.Some? then [s.elseStmt.value] else [];
    assert Children(s) == [s.thenStmt] + s.elseList + tail;
    ChildUnannotated(s, s.thenStmt);
    AgreesWithInterpreter(v, s.thenStmt);
    forall i | 0 <= i < |s.elseList| ensures s.elseList[i] < s && Unannotated(s.elseList[i]) {
      ChildUnannotated(s, s.elseList[i]);
    }
    AgreesAll(v, s.elseList, s);
    var elseResult := if s.elseStmt.Some? then Collect(v, s.elseStmt.value) else [];
    assert elseResult == if s.elseStmt.Some? then IN.Collect(w, s.elseStmt.value) else [] by {
      if s.elseStmt.Some? {
        ChildUnannotated(s, s.elseStmt.value);
        AgreesWithInterpreter(v, s.elseStmt.value);
      }
    }
    var head := IN.ExpResult(w, s.ifExp);
    assert Collect(v, s) == head + Collect(v, s.thenStmt) + CollectAll(v, s.elseList) + elseResult;
    IN.IfOrder(w, s.ifExp, s.thenStmt, s.elseList, s.elseStmt);
    assert IN.Initial(w, s) + head == head;
  }

  lemma {:induction false} AgreesTwoParts<E>(v: Visitor<E>, s: Stmt)
    requires (s.Tixe? || s.Always? || s.Trap?) && Unannotated(s)
    ensures Collect(v, s) == IN.Collect(Leaf(v), s)
    decreases s, 1
  {
    if s.Tixe? {
      assert Children(s) == s.traps + [s.body];
      forall i | 0 <= i < |s.traps| ensures s.traps[i] < s && Unannotated(s.traps[i]) {
        ChildUnannotated(s, s.traps[i]);
      }
      AgreesAll(v, s.traps, s);
      ChildUnannotated(s, s.body);
      AgreesWithInterpreter(v, s.body);
    } else {
      var x, y := if s.Always? then s.always else s.withStmt, s.body;
      assert Children(s) == [x, y];
      ChildUnannotated(s, x);
      ChildUnannotated(s, y);
      AgreesWithInterpreter(v, x);
      AgreesWithInterpreter(v, y);
    }
  }

  lemma {:induction false} AgreesOneExpOneChild<E>(v: Visitor<E>, s: Stmt)
    requires (s.Cycles? || s.Duration? || s.ElseIf? || s.ForAll? || s.While?) && Unannotated(s)
    ensures Collect(v, s) == IN.Collect(Leaf(v), s)
    decreases s, 1
  {
    var c := if s.ElseIf? then s.thenStmt else s.statement;
    assert Children(s) == [c];
    ChildUnannotated(s, c);
    AgreesWithInterpreter(v, c);
  }

  lemma {:induction false} AgreesMoreThenChild<E>(v: Visitor<E>, s: Stmt)
    requires (s.ForIndex? || s.ForPatternBind? || s.LetBeSt? || s.LetDef?) && Unannotated(s)
    ensures Collect(v, s) == IN.Collect(Leaf(v), s)
    decreases s, 1
  {
    assert Children(s) == [s.statement];
    ChildUnannotated(s, s.statement);
    AgreesWithInterpreter(v, s.statement);
  }

  lemma {:induction false} AgreesLists<E>(v: Visitor<E>, s: Stmt)
    requires (s.Atomic? || s.Block? || s.Cases? || s.SimpleBlock?) && Unannotated(s)
    ensures Collect(v, s) == IN.Collect(Leaf(v), s)
    decreases s, 1
  {
    forall i | 0 <= i < |Children(s)| ensures Children(s)[i] < s && Unannotated(Children(s)[i]) {
      ChildUnannotated(s, Children(s)[i]);
    }
    AgreesAll(v, Children(s), s);
  }

  lemma AgreesLeaf<E>(v: Visitor<E>, s: Stmt)
    requires Children(s) == [] && !s.Annotated?
    requires !(s.Atomic? || s.Block? || s.Cases? || s.SimpleBlock? || s.If? || s.Tixe?)
    ensures Collect(v, s) == IN.Collect(Leaf(v), s)
  {
  }

  /**
   * The parsed-tree visitor's result is the concatenation of every statement
   * node's own contribution, in the order of a pre-order walk.
   */
  lemma ParsedIsPreOrderFold<E>(v: Visitor<E>, s: Stmt)
    requires Unannotated(s)
    ensures Collect(v, s) == IN.LocalAll(Leaf(v), PreOrder(s))
  {
    AgreesWithInterpreter(v, s);
    IN.CollectIsPreOrderFold(Leaf(v), s);
  }

  /** An assignment gives exactly its expression's results, or nothing without an expression visitor. */
  lemma AssignmentResult<E>(v: Visitor<E>, exp: Exp)
    ensures v.expVisitor.Some? ==> Collect(v, Assignment(exp)) == v.expVisitor.value(exp)
    ensures v.expVisitor.None? ==> Collect(v, Assignment(exp)) == []
  {
  }

  /** Skip, error and subclass-responsibility statements give nothing. */
  lemma EmptyStatements<E>(v: Visitor<E>, s: Stmt)
    requires s.Skip? || s.Error? || s.SubclassResponsibility?
    ensures Collect(v, s) == []
  {
  }

  /** Return and exit without an expression give nothing. */
  lemma NoExpressionNoResults<E>(v: Visitor<E>)
    ensures Collect(v, Return(None)) == []
    ensures Collect(v, Exit(None)) == []
  {
  }

  /** A `while` collects its condition's results, then its body's. */
  lemma WhileOrder<E>(v: Visitor<E>, exp: Exp, body: Stmt)
    ensures Collect(v, While(exp, body)) ==
      (if v.expVisitor.Some? then v.expVisitor.value(exp) else []) + Collect(v, body)
  {
  }

  /**
   * A let-be-st collects its bind's set or sequence, then the such-that
   * expression if present, then its body; without an expression visitor only
   * its body's results.
   */
  lemma LetBeStOrder<E>(v: Visitor<E>, bind: Bind, suchThat: Option<Exp>, body: Stmt)
    ensures v.expVisitor.None? ==> Collect(v, LetBeSt(bind, suchThat, body)) == Collect(v, body)
    ensures v.expVisitor.Some? ==>
      Collect(v, LetBeSt(bind, suchThat, body)) ==
        (match bind
         case SetBind(e) => v.expVisitor.value(e)
         case SeqBind(e) => v.expVisitor.value(e)
         case TypeBind => []) +
        (if suchThat.Some? then v.expVisitor.value(suchThat.value) else []) +
        Collect(v, body)
  {
  }

  /**
   * A trap collects its bind's set or sequence, then its `with` statement,
   * then its body; without an expression visitor only the two statements'.
   */
  lemma TrapOrder<E>(v: Visitor<E>, bind: Bind, withStmt: Stmt, body: Stmt)
    ensures v.expVisitor.None? ==> Collect(v, Trap(bind, withStmt, body)) == Collect(v, withStmt) + Collect(v, body)
    ensures v.expVisitor.Some? ==>
      Collect(v, Trap(bind, withStmt, body)) ==
        (match bind
         case SetBind(e) => v.expVisitor.value(e)
         case SeqBind(e) => v.expVisitor.value(e)
         case TypeBind => []) +
        Collect(v, withStmt) + Collect(v, body)
  {
  }
}
