/**
 * The default dispatch of the interpreter's definition visitor
 * (FJ-VDMJ4 in/definitions/INDefinitionVisitor.java). A visitor supplies
 * `caseDefinition` and may override the case of any kind; a kind that is not
 * overridden delegates to the case of its parent kind (BUS, CPU and system
 * classes to the class case, instance variables to the assignment case), and
 * every other kind straight to `caseDefinition`.
 */
module INDefinitionVisitor {
  import opened Runtime
  import opened StatementTrees

  /** A visitor: its overridden cases, and its `caseDefinition`. */
  datatype DefVisitor<R> = DefVisitor(overrides: map<DefKind, Def -> R>, caseDefinition: Def -> R)

  /** The case a kind's default delegates to; `None` is `caseDefinition`. */
  function Parent(k: DefKind): (p: Option<DefKind>)
    ensures p.Some? ==> p.value == ClassKind || p.value == AssignmentKind
  {
    match k
    case BUSClassKind => Some(ClassKind)
    case CPUClassKind => Some(ClassKind)
    case SystemKind => Some(ClassKind)
    case InstanceVariableKind => Some(AssignmentKind)
    case _ => None
  }

  /** The cases a kind's default chain passes through, from the kind itself, before `caseDefinition`. */
  function Chain(k: DefKind): (ks: seq<DefKind>)
    ensures 1 <= |ks| <= 2 && ks[0] == k
    ensures Parent(ks[|ks| - 1]).None?
    ensures forall i :: 0 <= i < |ks| - 1 ==> Parent(ks[i]) == Some(ks[i + 1])
  {
    match Parent(k)
    case None => [k]
    case Some(p) => [k, p]
  }

  /** The overridden case that answers for kind `k`, if any: the first on its chain. */
  function Answering(overridden: set<DefKind>, k: DefKind): Option<DefKind>
    decreases if Parent(k).Some? then 1 else 0
  {
    if k in overridden then Some(k)
    else match Parent(k)
      case None => None
      case Some(p) => Answering(overridden, p)
  }

  /** Visiting a definition: the answering override, or else `caseDefinition`. */
  function Visit<R>(v: DefVisitor<R>, d: Def): R
  {
    match Answering(v.overrides.Keys, d.kind)
    case Some(k) => v.overrides[k](d)
    case None => v.caseDefinition(d)
  }

  /**
   * The answering case is the first overridden case on the kind's chain, and
   * there is none exactly when no case on the chain is overridden.
   */
  lemma AnsweringIsFirstOnChain(overridden: set<DefKind>, k: DefKind)
    ensures Answering(overridden, k).Some? <==> exists i :: 0 <= i < |Chain(k)| && Chain(k)[i] in overridden
    ensures Answering(overridden, k).Some? ==>
      exists i :: 0 <= i < |Chain(k)| && Chain(k)[i] == Answering(overridden, k).value &&
        Chain(k)[i] in overridden && forall j :: 0 <= j < i ==> Chain(k)[j] !in overridden
  {
    var ks := Chain(k);
    if k in overridden {
      assert ks[0] in overridden;
    } else if Parent(k).Some? {
      var p := Parent(k).value;
      assert ks == [k, p];
      if p in overridden {
        assert Answering(overridden, k) == Some(p);
        assert ks[1] == p && forall j :: 0 <= j < 1 ==> ks[j] !in overridden;
      } else {
        assert Parent(p).None?;
        assert Answering(overridden, k) == None;
        assert forall i :: 0 <= i < |ks| ==> ks[i] !in overridden;
      }
    } else {
      assert ks == [k];
      assert Answering(overridden, k) == None;
    }
  }

  /** Every default chain reaches `caseDefinition` after at most two cases. */
  lemma ChainsAreShort(k: DefKind)
    ensures Parent(k).None? || Parent(Parent(k).value).None?
  {
  }

  /** An instance variable falls back to the assignment case, and class-like definitions to the class case. */
  lemma DefaultFallbacks<R>(v: DefVisitor<R>, d: Def)
    ensures d.kind == InstanceVariableKind && d.kind !in v.overrides && AssignmentKind in v.overrides ==>
      Visit(v, d) == v.overrides[AssignmentKind](d)
    ensures ((d.kind == BUSClassKind || d.kind == CPUClassKind || d.kind == SystemKind) &&
             d.kind !in v.overrides && ClassKind in v.overrides) ==>
      Visit(v, d) == v.overrides[ClassKind](d)
    ensures Parent(d.kind).None? && d.kind !in v.overrides ==> Visit(v, d) == v.caseDefinition(d)
  {
  }

  /** A visitor that overrides nothing answers every definition with `caseDefinition`. */
  lemma NoOverridesMeansCaseDefinition<R>(v: DefVisitor<R>, d: Def)
    requires v.overrides == map[]
    ensures Visit(v, d) == v.caseDefinition(d)
  {
    assert Chain(d.kind)[0] == d.kind;
    AnsweringIsFirstOnChain({}, d.kind);
  }
}
