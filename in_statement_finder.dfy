/**
 * Finding the expressions of a statement that start on a given line
 * (FJ-VDMJ4 in/statements/INStatementExpressionFinder.java). The finder is
 * the leaf statement visitor with every node visited; statement nodes
 * contribute nothing; each expression node, at any depth, is kept when it
 * starts on the line; an assignment, instance-variable or value definition
 * contributes its top expression alone, on the same test; other definitions
 * contribute nothing.
 */
module INStatementFinder {
  import opened Runtime
  import opened StatementTrees
  import opened INStatements
  import D = INDefinitionVisitor

  /** The expressions of `es` that start on `line`, in order. */
  function OnLine(es: seq<Exp>, line: int): (r: seq<Exp>)
    ensures |r| <= |es|
  {
    if es == [] then []
    else (if es[0].startLine == line then [es[0]] else []) + OnLine(es[1..], line)
  }

  /** The filter keeps exactly the expressions that start on the line. */
  lemma {:induction false} OnLineMembers(es: seq<Exp>, line: int)
    ensures forall x :: x in OnLine(es, line) <==> x in es && x.startLine == line
    decreases |es|
  {
    if es != [] {
      OnLineMembers(es[1..], line);
      assert es == [es[0]] + es[1..];
    }
  }

  lemma {:induction false} OnLineAppend(a: seq<Exp>, b: seq<Exp>, line: int)
    ensures OnLine(a + b, line) == OnLine(a, line) + OnLine(b, line)
    decreases |a|
  {
    if a == [] {
      assert a + b == b;
    } else {
      assert (a + b)[0] == a[0];
      assert (a + b)[1..] == a[1..] + b;
      OnLineAppend(a[1..], b, line);
      var h := if a[0].startLine == line then [a[0]] else [];
      calc {
        OnLine(a + b, line);
        h + OnLine(a[1..] + b, line);
        h + (OnLine(a[1..], line) + OnLine(b, line));
        (h + OnLine(a[1..], line)) + OnLine(b, line);
      }
    }
  }

  /** A definition's expression, when it has one. */
  function Top(d: Def): seq<Exp>
  {
    if d.expression.Some? then [d.expression.value] else []
  }

  /** The definition visitor of the finder: assignment and value definitions test their top expression. */
  function DefFinder(line: int): D.DefVisitor<seq<Exp>>
  {
    D.DefVisitor(map[AssignmentKind := d => OnLine(Top(d), line), ValueKind := d => OnLine(Top(d), line)], d => [])
  }

  /** The finder for `line`. */
  function Finder(line: int): Visitor<Exp>
  {
    Visitor(true, Some(s => []), Some(e => OnLine(ExpNodes(e), line)),
            Some(d => D.Visit(DefFinder(line), d)), s => [])
  }

  /** The expressions of `s` that start on `line`. */
  function Find(s: Stmt, line: int): seq<Exp>
  {
    Collect(Finder(line), s)
  }

  /** The same walk without the line test: the visitor that keeps every expression the finder considers. */
  function CandidateVisitor(): Visitor<Exp>
  {
    Visitor(true, Some(s => []), Some(ExpNodes),
            Some(d => D.Visit(D.DefVisitor(map[AssignmentKind := Top, ValueKind := Top], d => []), d)),
            s => [])
  }

  /** Every expression node the finder considers in `s`, in walk order. */
  function Candidates(s: Stmt): seq<Exp>
  {
    Collect(CandidateVisitor(), s)
  }

  /** Which definitions the finder looks into: assignments, instance variables (by fallback) and values. */
  lemma DefinitionContribution(d: Def, line: int)
    ensures D.Visit(DefFinder(line), d) ==
      (if d.kind == AssignmentKind || d.kind == InstanceVariableKind || d.kind == ValueKind
       then OnLine(Top(d), line) else [])
    ensures D.Visit(DefFinder(line), d) ==
      OnLine(D.Visit(D.DefVisitor(map[AssignmentKind := Top, ValueKind := Top], d => []), d), line)
  {
    assert DefFinder(line).overrides.Keys == {AssignmentKind, ValueKind};
    assert D.DefVisitor(map[AssignmentKind := Top, ValueKind := Top], (d: Def) => []).overrides.Keys ==
      {AssignmentKind, ValueKind};
  }

  lemma {:induction false} ExpsOnLine(es: seq<Exp>, line: int)
    ensures ExpsResult(Finder(line), es) == OnLine(ExpsResult(CandidateVisitor(), es), line)
    decreases |es|
  {
    if es != [] {
      ExpsOnLine(es[1..], line);
      OnLineAppend(ExpNodes(es[0]), ExpsResult(CandidateVisitor(), es[1..]), line);
    }
  }

  lemma {:induction false} DefsOnLine(ds: seq<Def>, line: int)
    ensures DefsResult(Finder(line), ds) == OnLine(DefsResult(CandidateVisitor(), ds), line)
    decreases |ds|
  {
    if ds != [] {
      DefsOnLine(ds[1..], line);
      DefinitionContribution(ds[0], line);
      var cv := CandidateVisitor();
      OnLineAppend(cv.defVisitor.value(ds[0]), DefsResult(cv, ds[1..]), line);
    }
  }

  /** Per node, the finder keeps exactly the considered expressions that start on the line. */
  lemma LocalOnLine(s: Stmt, line: int)
    ensures Local(Finder(line), s) == OnLine(Local(CandidateVisitor(), s), line)
  {
    if ArgsNode(s) {
      LocalOnLineArgs(s, line);
    } else if DefsNode(s) {
      LocalOnLineDefs(s, line);
    } else if OneExp(s) {
      LocalOnLineOneExp(s, line);
    } else if s.Exit? || s.Return? || s.Specification? || s.ForIndex? {
      LocalOnLineOptional(s, line);
    } else if s.ForPatternBind? || s.LetBeSt? || s.Trap? {
      LocalOnLineBind(s, line);
    } else {
      LocalOnLineNone(s, line);
    }
  }

  lemma LocalOnLineArgs(s: Stmt, line: int)
    requires ArgsNode(s)
    ensures Local(Finder(line), s) == OnLine(Local(CandidateVisitor(), s), line)
  {
    var f, c := Finder(line), CandidateVisitor();
    LocalOfArgs(f, s);
    LocalOfArgs(c, s);
    ExpsOnLine(OwnArgs(s), line);
    var fa, ca := ExpsResult(f, OwnArgs(s)), ExpsResult(c, OwnArgs(s));
    assert Initial(f, s) + fa == fa;
    assert Initial(c, s) + ca == ca;
  }

  lemma LocalOnLineDefs(s: Stmt, line: int)
    requires DefsNode(s)
    ensures Local(Finder(line), s) == OnLine(Local(CandidateVisitor(), s), line)
  {
    var f, c := Finder(line), CandidateVisitor();
    LocalOfDefs(f, s);
    LocalOfDefs(c, s);
    DefsOnLine(OwnDefs(s), line);
    var fd, cd := DefsResult(f, OwnDefs(s)), DefsResult(c, OwnDefs(s));
    assert Initial(f, s) + fd == fd;
    assert Initial(c, s) + cd == cd;
  }

  lemma ExpOnLine(e: Exp, line: int)
    ensures ExpResult(Finder(line), e) == OnLine(ExpResult(CandidateVisitor(), e), line)
    ensures OptExpResult(Finder(line), Some(e)) == OnLine(OptExpResult(CandidateVisitor(), Some(e)), line)
  {
  }

  lemma OptExpOnLine(e: Option<Exp>, line: int)
    ensures OptExpResult(Finder(line), e) == OnLine(OptExpResult(CandidateVisitor(), e), line)
  {
    if e.Some? {
      ExpOnLine(e.value, line);
    }
  }

  lemma BindOnLine(b: Bind, line: int)
    ensures BindResult(Finder(line), b) == OnLine(BindResult(CandidateVisitor(), b), line)
  {
    match b
    case SetBind(x) => ExpOnLine(x, line);
    case SeqBind(x) => ExpOnLine(x, line);
    case TypeBind =>
  }

  /** A node whose own contribution is one expression's results. */
  lemma LocalIsExp(s: Stmt, e: Exp, line: int)
    requires Local(Finder(line), s) == Initial(Finder(line), s) + ExpResult(Finder(line), e)
    requires Local(CandidateVisitor(), s) == Initial(CandidateVisitor(), s) + ExpResult(CandidateVisitor(), e)
    ensures Local(Finder(line), s) == OnLine(Local(CandidateVisitor(), s), line)
  {
    ExpOnLine(e, line);
    var fe, ce := ExpResult(Finder(line), e), ExpResult(CandidateVisitor(), e);
    assert Initial(Finder(line), s) + fe == fe;
    assert Initial(CandidateVisitor(), s) + ce == ce;
  }

  lemma LocalOnLineOneExp(s: Stmt, line: int)
    requires OneExp(s)
    ensures Local(Finder(line), s) == OnLine(Local(CandidateVisitor(), s), line)
  {
    LocalOfOneExp(Finder(line), s);
    LocalOfOneExp(CandidateVisitor(), s);
    LocalIsExp(s, OwnExp(s), line);
  }

  lemma LocalOnLineOptional(s: Stmt, line: int)
    requires s.Exit? || s.Return? || s.Specification? || s.ForIndex?
    ensures Local(Finder(line), s) == OnLine(Local(CandidateVisitor(), s), line)
  {
    if s.Specification? {
      LocalOnLineSpecification(s, line);
    } else if s.ForIndex? {
      LocalOnLineForIndex(s, line);
    } else {
      var f, c := Finder(line), CandidateVisitor();
      OptExpOnLine(s.optExp, line);
      assert Local(f, s) == [] + OptExpResult(f, s.optExp) == OptExpResult(f, s.optExp);
      assert Local(c, s) == [] + OptExpResult(c, s.optExp) == OptExpResult(c, s.optExp);
    }
  }

  lemma LocalOnLineSpecification(s: Stmt, line: int)
    requires s.Specification?
    ensures Local(Finder(line), s) == OnLine(Local(CandidateVisitor(), s), line)
  {
    var f, c := Finder(line), CandidateVisitor();
    var x, y := OptExpResult(c, s.precondition), OptExpResult(c, s.postcondition);
    OptExpOnLine(s.precondition, line);
    OptExpOnLine(s.postcondition, line);
    LocalOfSpecification(f, s);
    LocalOfSpecification(c, s);
    OnLineAppend(x, y, line);
  }

  lemma LocalOnLineForIndex(s: Stmt, line: int)
    requires s.ForIndex?
    ensures Local(Finder(line), s) == OnLine(Local(CandidateVisitor(), s), line)
  {
    var f, c := Finder(line), CandidateVisitor();
    var x, y, z := ExpResult(c, s.fromExp), ExpResult(c, s.toExp), OptExpResult(c, s.byExp);
    assert Local(f, s) == OnLine(x, line) + OnLine(y, line) + OnLine(z, line) by {
      ExpOnLine(s.fromExp, line);
      ExpOnLine(s.toExp, line);
      OptExpOnLine(s.byExp, line);
      assert Initial(f, s) + ExpResult(f, s.fromExp) == ExpResult(f, s.fromExp);
    }
    assert Local(c, s) == x + y + z by {
      assert Initial(c, s) + x == x;
    }
    OnLineAppend(x, y, line);
    OnLineAppend(x + y, z, line);
  }

  lemma LocalOnLineBind(s: Stmt, line: int)
    requires s.ForPatternBind? || s.LetBeSt? || s.Trap?
    ensures Local(Finder(line), s) == OnLine(Local(CandidateVisitor(), s), line)
  {
    if s.ForPatternBind? {
      LocalOnLineForPatternBind(s, line);
    } else if s.LetBeSt? {
      LocalOnLineLetBeSt(s, line);
    } else {
      LocalOnLineTrap(s, line);
    }
  }

  lemma LocalOnLineForPatternBind(s: Stmt, line: int)
    requires s.ForPatternBind?
    ensures Local(Finder(line), s) == OnLine(Local(CandidateVisitor(), s), line)
  {
    var c := CandidateVisitor();
    var x, y := BindResult(c, s.bind), ExpResult(c, s.exp);
    assert Local(Finder(line), s) == OnLine(x, line) + OnLine(y, line) by {
      BindOnLine(s.bind, line);
      ExpOnLine(s.exp, line);
      assert Initial(Finder(line), s) == [];
    }
    assert Local(c, s) == x + y by {
      assert Initial(c, s) == [];
    }
    OnLineAppend(x, y, line);
  }

  lemma LocalOnLineLetBeSt(s: Stmt, line: int)
    requires s.LetBeSt?
    ensures Local(Finder(line), s) == OnLine(Local(CandidateVisitor(), s), line)
  {
    var c := CandidateVisitor();
    var x, y := BindResult(c, s.bind), OptExpResult(c, s.suchThat);
    assert Local(Finder(line), s) == OnLine(x, line) + OnLine(y, line) by {
      BindOnLine(s.bind, line);
      OptExpOnLine(s.suchThat, line);
      assert Initial(Finder(line), s) == [];
    }
    assert Local(c, s) == x + y by {
      assert Initial(c, s) == [];
    }
    OnLineAppend(x, y, line);
  }

  lemma LocalOnLineTrap(s: Stmt, line: int)
    requires s.Trap?
    ensures Local(Finder(line), s) == OnLine(Local(CandidateVisitor(), s), line)
  {
    var c := CandidateVisitor();
    var x := BindResult(c, s.bind);
    assert Local(Finder(line), s) == OnLine(x, line) by {
      BindOnLine(s.bind, line);
      assert Initial(Finder(line), s) == [];
    }
    assert Local(c, s) == x by {
      assert Initial(c, s) == [];
    }
  }

  lemma LocalOnLineNone(s: Stmt, line: int)
    requires s.Always? || s.Atomic? || s.Cases? || s.Error? || s.SimpleBlock? || s.Skip? ||
             s.SubclassResponsibility? || s.Tixe? || s.Other?
    ensures Local(Finder(line), s) == OnLine(Local(CandidateVisitor(), s), line)
  {
    if s.Other? {
      assert Local(Finder(line), s) == [] && Local(CandidateVisitor(), s) == [];
    } else {
      assert Local(Finder(line), s) == Initial(Finder(line), s) == [];
      assert Local(CandidateVisitor(), s) == Initial(CandidateVisitor(), s) == [];
    }
  }

  lemma {:induction false} LocalAllOnLine(ns: seq<Stmt>, line: int)
    ensures LocalAll(Finder(line), ns) == OnLine(LocalAll(CandidateVisitor(), ns), line)
    decreases |ns|
  {
    if ns != [] {
      LocalAllOnLine(ns[1..], line);
      LocalOnLine(ns[0], line);
      OnLineAppend(Local(CandidateVisitor(), ns[0]), LocalAll(CandidateVisitor(), ns[1..]), line);
    }
  }

  /**
   * The finder's result is the considered expressions of the statement that
   * start on the line, in walk order: every result starts on the line, and
   * every considered expression on the line is a result.
   */
  lemma FindIsFilteredCandidates(s: Stmt, line: int)
    ensures Find(s, line) == OnLine(Candidates(s), line)
    ensures forall x :: x in Find(s, line) <==> x in Candidates(s) && x.startLine == line
  {
    CollectIsPreOrderFold(Finder(line), s);
    CollectIsPreOrderFold(CandidateVisitor(), s);
    LocalAllOnLine(PreOrder(s), line);
    OnLineMembers(Candidates(s), line);
  }

  /** Every expression node of an assignment statement is considered, at any depth. */
  lemma AssignmentExpressionsConsidered(e: Exp, line: int)
    ensures Candidates(Assignment(e)) == ExpNodes(e)
    ensures forall x :: x in ExpNodes(e) && x.startLine == line ==> x in Find(Assignment(e), line)
  {
    FindIsFilteredCandidates(Assignment(e), line);
  }

  /** For a definition, only its top expression is considered, not the expressions inside it. */
  lemma DefinitionTopOnly(d: Def, body: Stmt, line: int)
    requires d.kind == AssignmentKind || d.kind == InstanceVariableKind || d.kind == ValueKind
    requires d.expression.Some?
    ensures Find(LetDef([d], body), line) ==
      OnLine([d.expression.value], line) + Find(body, line)
  {
    var f := Finder(line);
    var s := LetDef([d], body);
    DefinitionContribution(d, line);
    assert DefsResult(f, [d]) == OnLine([d.expression.value], line) by {
      assert [d][1..] == [];
      assert DefsResult(f, [d]) == f.defVisitor.value(d) + DefsResult(f, []);
    }
    CollectOfLetDef(f, s);
  }
}
