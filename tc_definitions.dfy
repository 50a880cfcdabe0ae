/**
 * The leaf-collecting definition visitor of the type-checked tree
 * (FJ-VDMJ4 tc/definitions/TCLeafDefinitionVisitor.java). Each definition
 * kind collects, in order, the results of its type (through the type
 * visitor), its expressions (through the expression visitor) and its
 * statement bodies (through the statement visitor), each only when the
 * visitor has that sub-visitor; a class collects its members' results, and
 * so do BUS, CPU and system classes, whose default case is the class case;
 * a qualified definition answers as the definition it stands for, and kinds
 * without a case go to `caseDefinition`. Collections are lists.
 */
module TCDefinitions {
  import opened Runtime

  /** The parts a definition hands to its sub-visitors, each known by its identity. */
  datatype ExpNode = ExpNode(id: nat)
  datatype StmtNode = StmtNode(id: nat)
  datatype TypeNode = TypeNode(id: nat)

  /** A multiple bind over a set, over a sequence, or over a type. */
  datatype MultipleBind = MultipleSetBind(setExp: ExpNode) | MultipleSeqBind(seqExp: ExpNode) | MultipleTypeBind

  /** The definition kinds, with the parts the visitor takes from each. */
  datatype TCDef =
    | AssignmentDef(typ: TypeNode, expression: ExpNode)
    | BUSClassDef(definitions: seq<TCDef>)
    | ClassDef(definitions: seq<TCDef>)
    | CPUClassDef(definitions: seq<TCDef>)
    | ClassInvariantDef(classInvariant: ExpNode)
    | EqualsDef(typ: TypeNode, test: ExpNode)
    | ExplicitFunctionDef(typ: TypeNode, body: ExpNode)
    | ExplicitOperationDef(typ: TypeNode, opBody: StmtNode)
    | ExternalDef
    | ImplicitFunctionDef(typ: TypeNode, optBody: Option<ExpNode>)
    | ImplicitOperationDef(typ: TypeNode, optOpBody: Option<StmtNode>)
    | ImportedDef
    | InheritedDef
    | InstanceVariableDef(typ: TypeNode, initial: Option<ExpNode>)
    | LocalDef(typ: TypeNode)
    | MultiBindListDef(bindings: seq<MultipleBind>)
    | MutexSyncDef
    | NamedTraceDef
    | PerSyncDef(guard: ExpNode)
    | QualifiedDef(target: TCDef)
    | RenamedDef
    | StateDef(fieldTypes: seq<TypeNode>, invExpression: Option<ExpNode>, initExpression: Option<ExpNode>)
    | SystemDef(definitions: seq<TCDef>)
    | ThreadDef(statement: StmtNode)
    | TypeDef(typ: TypeNode, invExpression: Option<ExpNode>, eqExpression: Option<ExpNode>, ordExpression: Option<ExpNode>)
    | UntypedDef
    | ValueDef(typ: TypeNode, exp: ExpNode)
    | OtherDef(id: nat)

  /** A visitor: its expression, statement and type visitors if it has them, and its `caseDefinition`. */
  datatype Visitor<E> = Visitor(
    expVisitor: Option<ExpNode -> seq<E>>,
    stmtVisitor: Option<StmtNode -> seq<E>>,
    typeVisitor: Option<TypeNode -> seq<E>>,
    caseDefinition: TCDef -> seq<E>)

  function ExpResult<E>(v: Visitor<E>, e: ExpNode): seq<E>
  {
    if v.expVisitor.Some? then v.expVisitor.value(e) else []
  }

  function OptExpResult<E>(v: Visitor<E>, e: Option<ExpNode>): seq<E>
  {
    if e.Some? then ExpResult(v, e.value) else []
  }

  function StmtResult<E>(v: Visitor<E>, s: StmtNode): seq<E>
  {
    if v.stmtVisitor.Some? then v.stmtVisitor.value(s) else []
  }

  function TypeResult<E>(v: Visitor<E>, t: TypeNode): seq<E>
  {
    if v.typeVisitor.Some? then v.typeVisitor.value(t) else []
  }

  function TypesResult<E>(v: Visitor<E>, ts: seq<TypeNode>): seq<E>
  {
    if ts == [] then [] else TypeResult(v, ts[0]) + TypesResult(v, ts[1..])
  }

  /** `caseMultipleBind`: a set or sequence bind gives its expression's results; a type bind nothing. */
  function MultipleBindResult<E>(v: Visitor<E>, b: MultipleBind): seq<E>
  {
    match b
    case MultipleSetBind(setExp) => ExpResult(v, setExp)
    case MultipleSeqBind(seqExp) => ExpResult(v, seqExp)
    case MultipleTypeBind => []
  }

  function MultipleBindsResult<E>(v: Visitor<E>, bs: seq<MultipleBind>): seq<E>
  {
    if bs == [] then [] else MultipleBindResult(v, bs[0]) + MultipleBindsResult(v, bs[1..])
  }

  /** `caseAssignmentDefinition`, which instance variables with an initialiser share: the type, then the expression. */
  function AssignmentCase<E>(v: Visitor<E>, typ: TypeNode, expression: ExpNode): seq<E>
  {
    TypeResult(v, typ) + ExpResult(v, expression)
  }

  /** The kinds whose default case is the class case: a class, a BUS, a CPU and a system class. */
  predicate ClassLike(d: TCDef)
  {
    d.ClassDef? || d.BUSClassDef? || d.CPUClassDef? || d.SystemDef?
  }

  /** The results of visiting `d`, case by case. */
  function Collect<E>(v: Visitor<E>, d: TCDef): seq<E>
    decreases d, 1
  {
    match d
    case AssignmentDef(typ, expression) => AssignmentCase(v, typ, expression)
    case BUSClassDef(definitions) => CollectAll(v, definitions)
    case ClassDef(definitions) => CollectAll(v, definitions)
    case CPUClassDef(definitions) => CollectAll(v, definitions)
    case ClassInvariantDef(classInvariant) => ExpResult(v, classInvariant)
    case EqualsDef(typ, test) => TypeResult(v, typ) + ExpResult(v, test)
    case ExplicitFunctionDef(typ, body) => TypeResult(v, typ) + ExpResult(v, body)
    case ExplicitOperationDef(typ, opBody) => TypeResult(v, typ) + StmtResult(v, opBody)
    case ExternalDef => []
    case ImplicitFunctionDef(typ, optBody) =>
      if optBody.Some? then TypeResult(v, typ) + ExpResult(v, optBody.value) else []
    case ImplicitOperationDef(typ, optOpBody) =>
      if optOpBody.Some? then TypeResult(v, typ) + StmtResult(v, optOpBody.value) else []
    case ImportedDef => []
    case InheritedDef => []
    case InstanceVariableDef(typ, initial) =>
      if initial.Some? then AssignmentCase(v, typ, initial.value) else []
    case LocalDef(typ) => TypeResult(v, typ)
    case MultiBindListDef(bindings) => MultipleBindsResult(v, bindings)
    case MutexSyncDef => []
    case NamedTraceDef => []
    case PerSyncDef(guard) => ExpResult(v, guard)
    case QualifiedDef(target) => Collect(v, target)
    case RenamedDef => []
    case StateDef(fieldTypes, invExpression, initExpression) =>
      TypesResult(v, fieldTypes) + OptExpResult(v, invExpression) + OptExpResult(v, initExpression)
    case SystemDef(definitions) => CollectAll(v, definitions)
    case ThreadDef(statement) => StmtResult(v, statement)
    case TypeDef(typ, invExpression, eqExpression, ordExpression) =>
      TypeResult(v, typ) + OptExpResult(v, invExpression) + OptExpResult(v, eqExpression) + OptExpResult(v, ordExpression)
    case UntypedDef => []
    case ValueDef(typ, exp) => TypeResult(v, typ) + ExpResult(v, exp)
    case OtherDef(_) => v.caseDefinition(d)
  }

  function CollectAll<E>(v: Visitor<E>, ds: seq<TCDef>): seq<E>
    decreases ds, 0
  {
    if ds == [] then [] else Collect(v, ds[0]) + CollectAll(v, ds[1..])
  }

  lemma {:induction false} CollectAllAppend<E>(v: Visitor<E>, a: seq<TCDef>, b: seq<TCDef>)
    ensures CollectAll(v, a + b) == CollectAll(v, a) + CollectAll(v, b)
    decreases |a|
  {
    if a == [] {
      assert a + b == b;
    } else {
      assert (a + b)[1..] == a[1..] + b;
      CollectAllAppend(v, a[1..], b);
    }
  }

  /**
   * `caseClassDefinition` as the source runs it: each member definition's
   * results appended, in order, to one collection.
   */
  method CaseClass<E>(v: Visitor<E>, definitions: seq<TCDef>) returns (all: seq<E>)
    ensures all == Collect(v, ClassDef(definitions))
  {
    all := [];
    for i := 0 to |definitions|
      invariant all == CollectAll(v, definitions[..i])
    {
      CollectAllAppend(v, definitions[..i], [definitions[i]]);
      assert definitions[..i + 1] == definitions[..i] + [definitions[i]];
      assert CollectAll(v, [definitions[i]]) == Collect(v, definitions[i]) by {
        assert [definitions[i]][1..] == [];
      }
      all := all + Collect(v, definitions[i]);
    }
    assert definitions[..|definitions|] == definitions;
  }

  /** A class split anywhere collects its first part's results, then its second part's. */
  lemma ClassConcatenation<E>(v: Visitor<E>, a: seq<TCDef>, b: seq<TCDef>)
    ensures Collect(v, ClassDef(a + b)) == Collect(v, ClassDef(a)) + Collect(v, ClassDef(b))
  {
    CollectAllAppend(v, a, b);
  }

  /**
   * BUS, CPU and system classes are visited as the class case: each gives
   * its members' results in order, exactly as a class with those members.
   */
  lemma ClassLikeAsClass<E>(v: Visitor<E>, d: TCDef)
    requires ClassLike(d)
    ensures Collect(v, d) == Collect(v, ClassDef(d.definitions))
    ensures forall i :: 0 <= i <= |d.definitions| ==>
      Collect(v, d) == Collect(v, ClassDef(d.definitions[..i])) + Collect(v, ClassDef(d.definitions[i..]))
  {
    forall i | 0 <= i <= |d.definitions|
      ensures Collect(v, d) == Collect(v, ClassDef(d.definitions[..i])) + Collect(v, ClassDef(d.definitions[i..]))
    {
      assert d.definitions == d.definitions[..i] + d.definitions[i..];
      ClassConcatenation(v, d.definitions[..i], d.definitions[i..]);
    }
  }

  /** The definition a chain of qualifications stands for. */
  function Deref(d: TCDef): (r: TCDef)
    ensures !r.QualifiedDef?
    ensures r == d || r < d
  {
    if d.QualifiedDef? then Deref(d.target) else d
  }

  /** A qualified definition, however deeply qualified, gives what the definition it stands for gives. */
  lemma {:induction false} QualifiedIsDeref<E>(v: Visitor<E>, d: TCDef)
    ensures Collect(v, d) == Collect(v, Deref(d))
  {
    if d.QualifiedDef? {
      QualifiedIsDeref(v, d.target);
    }
  }

  /** An explicit function collects its type's results, then its body's. */
  lemma ExplicitFunctionOrder<E>(v: Visitor<E>, typ: TypeNode, body: ExpNode)
    ensures Collect(v, ExplicitFunctionDef(typ, body)) ==
      (if v.typeVisitor.Some? then v.typeVisitor.value(typ) else []) +
      (if v.expVisitor.Some? then v.expVisitor.value(body) else [])
  {
  }

  /** An implicit function or operation without a body gives nothing, whatever the visitors. */
  lemma MissingBodyGivesNothing<E>(v: Visitor<E>, typ: TypeNode)
    ensures Collect(v, ImplicitFunctionDef(typ, None)) == []
    ensures Collect(v, ImplicitOperationDef(typ, None)) == []
  {
  }

  /** An instance variable without an initialiser gives nothing; with one it is visited as an assignment definition. */
  lemma InstanceVariableAsAssignment<E>(v: Visitor<E>, typ: TypeNode, initial: Option<ExpNode>)
    ensures initial.None? ==> Collect(v, InstanceVariableDef(typ, initial)) == []
    ensures initial.Some? ==> Collect(v, InstanceVariableDef(typ, initial)) == Collect(v, AssignmentDef(typ, initial.value))
  {
  }

  /** The kinds the visitor does not look into give nothing. */
  lemma EmptyKinds<E>(v: Visitor<E>, d: TCDef)
    requires d.ExternalDef? || d.ImportedDef? || d.InheritedDef? || d.MutexSyncDef? ||
             d.NamedTraceDef? || d.RenamedDef? || d.UntypedDef?
    ensures Collect(v, d) == []
  {
  }

  /**
   * A type definition collects its type, then its inv, eq and ord
   * expressions, each if present; a missing type or expression visitor
   * leaves out its part.
   */
  lemma TypeDefOrder<E>(v: Visitor<E>, typ: TypeNode, inv: Option<ExpNode>, eq: Option<ExpNode>, ord: Option<ExpNode>)
    ensures Collect(v, TypeDef(typ, inv, eq, ord)) ==
      (if v.typeVisitor.Some? then v.typeVisitor.value(typ) else []) +
      (if v.expVisitor.Some? && inv.Some? then v.expVisitor.value(inv.value) else []) +
      (if v.expVisitor.Some? && eq.Some? then v.expVisitor.value(eq.value) else []) +
      (if v.expVisitor.Some? && ord.Some? then v.expVisitor.value(ord.value) else [])
  {
  }

  /**
   * A state definition collects its field types in order, then its inv and
   * init expressions, each if present; a missing type or expression visitor
   * leaves out its part.
   */
  lemma {:induction false} StateDefOrder<E>(v: Visitor<E>, fieldTypes: seq<TypeNode>, inv: Option<ExpNode>, init: Option<ExpNode>)
    ensures Collect(v, StateDef(fieldTypes, inv, init)) ==
      (if v.typeVisitor.Some? then FieldTypeResults(v.typeVisitor.value, fieldTypes) else []) +
      (if v.expVisitor.Some? && inv.Some? then v.expVisitor.value(inv.value) else []) +
      (if v.expVisitor.Some? && init.Some? then v.expVisitor.value(init.value) else [])
  {
    if v.typeVisitor.Some? {
      FieldTypesInOrder(v, fieldTypes);
    } else {
      NoTypeVisitorNoTypes(v, fieldTypes);
    }
  }

  /** The type visitor's results for each field type, in order. */
  function FieldTypeResults<E>(f: TypeNode -> seq<E>, ts: seq<TypeNode>): seq<E>
  {
    if ts == [] then [] else FieldTypeResults(f, ts[..|ts| - 1]) + f(ts[|ts| - 1])
  }

  lemma {:induction false} FieldTypesInOrder<E>(v: Visitor<E>, ts: seq<TypeNode>)
    requires v.typeVisitor.Some?
    ensures TypesResult(v, ts) == FieldTypeResults(v.typeVisitor.value, ts)
    decreases |ts|
  {
    if ts != [] {
      var init, last := ts[..|ts| - 1], ts[|ts| - 1];
      assert ts == init + [last];
      TypesResultAppend(v, init, [last]);
      assert TypesResult(v, [last]) == TypeResult(v, last) by {
        assert [last][1..] == [];
      }
      FieldTypesInOrder(v, init);
    }
  }

  lemma {:induction false} TypesResultAppend<E>(v: Visitor<E>, a: seq<TypeNode>, b: seq<TypeNode>)
    ensures TypesResult(v, a + b) == TypesResult(v, a) + TypesResult(v, b)
    decreases |a|
  {
    if a == [] {
      assert a + b == b;
    } else {
      assert (a + b)[1..] == a[1..] + b;
      TypesResultAppend(v, a[1..], b);
    }
  }

  /** The definitions of kinds without a case that a visit reaches, through class members and qualifications. */
  function Unhandled(d: TCDef): (r: seq<TCDef>)
    ensures forall i :: 0 <= i < |r| ==> r[i].OtherDef? && (r[i] == d || r[i] < d)
    ensures !ClassLike(d) && !d.QualifiedDef? && !d.OtherDef? ==> r == []
    decreases d, 1
  {
    match d
    case BUSClassDef(definitions) => UnhandledAll(definitions)
    case ClassDef(definitions) => UnhandledAll(definitions)
    case CPUClassDef(definitions) => UnhandledAll(definitions)
    case SystemDef(definitions) => UnhandledAll(definitions)
    case QualifiedDef(target) => Unhandled(target)
    case OtherDef(_) => [d]
    case _ => []
  }

  function UnhandledAll(ds: seq<TCDef>): (r: seq<TCDef>)
    ensures forall i :: 0 <= i < |r| ==> r[i].OtherDef? && exists j :: 0 <= j < |ds| && (r[i] == ds[j] || r[i] < ds[j])
    decreases ds, 0
  {
    if ds == [] then [] else Unhandled(ds[0]) + UnhandledAll(ds[1..])
  }

  /** `caseDefinition` applied to each of a list of definitions, in order. */
  function CaseDefinitions<E>(v: Visitor<E>, ds: seq<TCDef>): seq<E>
  {
    if ds == [] then [] else v.caseDefinition(ds[0]) + CaseDefinitions(v, ds[1..])
  }

  lemma {:induction false} CaseDefinitionsAppend<E>(v: Visitor<E>, a: seq<TCDef>, b: seq<TCDef>)
    ensures CaseDefinitions(v, a + b) == CaseDefinitions(v, a) + CaseDefinitions(v, b)
    decreases |a|
  {
    if a == [] {
      assert a + b == b;
    } else {
      assert (a + b)[1..] == a[1..] + b;
      CaseDefinitionsAppend(v, a[1..], b);
    }
  }

  /**
   * Without expression, statement and type visitors, a visit gives only what
   * `caseDefinition` gives for the definitions without a case that it reaches
   * through class members and qualifications, in order.
   */
  lemma {:induction false} OnlyUnhandledWithoutSubVisitors<E>(v: Visitor<E>, d: TCDef)
    requires v.expVisitor.None? && v.stmtVisitor.None? && v.typeVisitor.None?
    ensures Collect(v, d) == CaseDefinitions(v, Unhandled(d))
    decreases d, 1
  {
    match d
    case BUSClassDef(definitions) => OnlyUnhandledAll(v, definitions, d);
    case ClassDef(definitions) => OnlyUnhandledAll(v, definitions, d);
    case CPUClassDef(definitions) => OnlyUnhandledAll(v, definitions, d);
    case SystemDef(definitions) => OnlyUnhandledAll(v, definitions, d);
    case QualifiedDef(target) => OnlyUnhandledWithoutSubVisitors(v, target);
    case OtherDef(_) =>
      assert CaseDefinitions(v, [d]) == v.caseDefinition(d) by {
        assert [d][1..] == [];
      }
    case StateDef(fieldTypes, _, _) => NoTypeVisitorNoTypes(v, fieldTypes);
    case MultiBindListDef(bindings) => NoExpVisitorNoBinds(v, bindings);
    case _ =>
  }

  lemma {:induction false} OnlyUnhandledAll<E>(v: Visitor<E>, ds: seq<TCDef>, parent: TCDef)
    requires v.expVisitor.None? && v.stmtVisitor.None? && v.typeVisitor.None?
    requires forall i :: 0 <= i < |ds| ==> ds[i] < parent
    ensures CollectAll(v, ds) == CaseDefinitions(v, UnhandledAll(ds))
    decreases parent, 0, |ds|
  {
    if ds != [] {
      OnlyUnhandledWithoutSubVisitors(v, ds[0]);
      OnlyUnhandledAll(v, ds[1..], parent);
      CaseDefinitionsAppend(v, Unhandled(ds[0]), UnhandledAll(ds[1..]));
    }
  }

  lemma {:induction false} NoTypeVisitorNoTypes<E>(v: Visitor<E>, ts: seq<TypeNode>)
    requires v.typeVisitor.None?
    ensures TypesResult(v, ts) == []
    decreases |ts|
  {
    if ts != [] {
      NoTypeVisitorNoTypes(v, ts[1..]);
    }
  }

  lemma {:induction false} NoExpVisitorNoBinds<E>(v: Visitor<E>, bs: seq<MultipleBind>)
    requires v.expVisitor.None?
    ensures MultipleBindsResult(v, bs) == []
    decreases |bs|
  {
    if bs != [] {
      NoExpVisitorNoBinds(v, bs[1..]);
    }
  }
}
