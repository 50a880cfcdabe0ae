/**
 * The unary set and map operators of the evaluator:
 * `card` (FJ-VDMJ4 in/expressions/INCardinalityExpression.java),
 * `dinter` (INDistIntersectExpression.java) and
 * `rng` (INMapRangeExpression.java).
 * Each takes the outcome of evaluating its operand; the suspension check
 * that precedes that evaluation is outside this model.
 */
module SetExpressions {
  import opened Runtime

  // ---------------------------------------------------------------- card

  /** `card`: the operand's element count, with the expression's exception mapping. */
  function EvalCardinality(operand: Outcome<Value>): (r: Outcome<Value>)
    ensures r.Normal? ==> r.value.NatV?
  {
    match operand
    case Normal(v) =>
      (match SetValue(v)
       case Ok(s) => Normal(NatV(|s|))
       case Err(e) => Thrown(AbortWith(e)))
    case Thrown(ContextException(_)) => operand   // handed on, not re-wrapped
    case Thrown(OtherException(msg)) => Thrown(Abort(4065, msg))
  }

  /**
   * The outcomes of `card`, case by case: the size of a set operand, an
   * abort carrying the coercion error for any other value, the operand's own
   * located abort unchanged, and 4065 for every other exception.
   */
  lemma CardinalityOutcomes(operand: Outcome<Value>)
    ensures operand.Normal? && Deref(operand.value).SetV? ==>
      EvalCardinality(operand) == Normal(NatV(|Deref(operand.value).elems|))
    ensures operand.Normal? && !Deref(operand.value).SetV? ==>
      EvalCardinality(operand) == Thrown(ContextException(FromValue(Coercion("set", Deref(operand.value).Tag()))))
    ensures operand.Thrown? && operand.exc.ContextException? ==> EvalCardinality(operand) == operand
    ensures operand.Thrown? && operand.exc.OtherException? ==>
      EvalCardinality(operand) == Thrown(ContextException(Code(4065, operand.exc.message)))
  {
  }

  /** `card` looks through references: a reference gives exactly what its target gives, normal or not. */
  lemma CardinalityThroughReference(v: Value)
    ensures EvalCardinality(Normal(RefV(v))) == EvalCardinality(Normal(v))
  {
  }

  // -------------------------------------------------------------- dinter

  /** Every member of the outer set is itself a set. */
  ghost predicate AllSets(outer: set<Value>)
  {
    forall v :: v in outer ==> Deref(v).SetV?
  }

  /** The elements common to every member set of a non-empty set of sets. */
  ghost function Intersection(outer: set<Value>): (r: set<Value>)
    requires outer != {} && AllSets(outer)
    ensures forall v :: v in outer ==> r <= Deref(v).elems
  {
    set v, x | v in outer && x in Deref(v).elems && (forall w :: w in outer ==> x in Deref(w).elems) :: x
  }

  lemma IntersectionOfOne(m: Value)
    requires Deref(m).SetV?
    ensures Intersection({m}) == Deref(m).elems
  {
  }

  lemma {:induction false} IntersectionOfInsert(done: set<Value>, m: Value)
    requires done != {} && AllSets(done) && Deref(m).SetV?
    ensures AllSets(done + {m})
    ensures Intersection(done + {m}) == Intersection(done) * Deref(m).elems
  {
    var v0 :| v0 in done;
    forall x | x in Intersection(done) * Deref(m).elems
      ensures x in Intersection(done + {m})
    {
      assert v0 in done + {m} && x in Deref(v0).elems;
    }
  }

  /**
   * `dinter`: an empty outer set aborts with 4151; otherwise the first
   * member is copied and narrowed by each further member in turn. The
   * members are visited in the set's own order, which is not modelled.
   */
  method EvalDistIntersect(operand: Outcome<Value>) returns (r: Outcome<Value>)
    ensures operand.Thrown? ==> r == operand
    ensures operand.Normal? && !Deref(operand.value).SetV? ==>
      r == Thrown(AbortWith(CoercionFailure("set", operand.value)))
    ensures operand.Normal? && Deref(operand.value) == SetV({}) ==>
      r == Thrown(Abort(4151, "Cannot take dinter of empty set"))
    ensures operand.Normal? && Deref(operand.value).SetV? && Deref(operand.value).elems != {} ==>
      var outer := Deref(operand.value).elems;
      (AllSets(outer) ==> r == Normal(SetV(Intersection(outer)))) &&
      (!AllSets(outer) ==> exists m :: m in outer && !Deref(m).SetV? && r == Thrown(AbortWith(CoercionFailure("set", m))))
  {
    if operand.Thrown? {
      return operand;
    }
    var setset := SetValue(operand.value);
    if setset.Err? {
      return Thrown(AbortWith(setset.error));
    }
    var outer := setset.value;
    if outer == {} {
      return Thrown(Abort(4151, "Cannot take dinter of empty set"));
    }
    var remaining := outer;
    var result: Option<set<Value>> := None;
    while remaining != {}
      invariant remaining <= outer
      invariant AllSets(outer - remaining)
      invariant result.None? <==> remaining == outer
      invariant result.Some? ==> outer - remaining != {} && result.value == Intersection(outer - remaining)
      decreases remaining
    {
      var v :| v in remaining;
      var member := SetValue(v);
      if member.Err? {
        return Thrown(AbortWith(member.error));
      }
      if result.None? {
        assert outer - (remaining - {v}) == {v};
        IntersectionOfOne(v);
        result := Some(member.value);
      } else {
        assert outer - (remaining - {v}) == (outer - remaining) + {v};
        IntersectionOfInsert(outer - remaining, v);
        result := Some(result.value * member.value);
      }
      remaining := remaining - {v};
    }
    assert outer - remaining == outer;
    r := Normal(SetV(result.value));
  }

  /** The intersection of a singleton is its only member, and it lies within every member. */
  lemma {:induction false} IntersectionProperties(outer: set<Value>, m: Value)
    requires outer != {} && AllSets(outer) && m in outer
    ensures Intersection(outer) <= Deref(m).elems
    ensures outer == {m} ==> Intersection(outer) == Deref(m).elems
    ensures forall x :: x in Intersection(outer) <==> (forall w :: w in outer ==> x in Deref(w).elems)
  {
    if outer == {m} {
      IntersectionOfOne(m);
    }
    forall x | forall w :: w in outer ==> x in Deref(w).elems
      ensures x in Intersection(outer)
    {
      assert x in Deref(m).elems;
    }
  }

  // ----------------------------------------------------------------- rng

  /** `rng`: the set of the values of the map operand. */
  function EvalMapRange(operand: Outcome<Value>): (r: Outcome<Value>)
    ensures operand.Thrown? ==> r == operand
    ensures operand.Normal? && !Deref(operand.value).MapV? ==>
      r == Thrown(AbortWith(CoercionFailure("map", operand.value)))
    ensures operand.Normal? && Deref(operand.value).MapV? ==> r.Normal? && r.value.SetV?
  {
    match operand
    case Thrown(_) => operand
    case Normal(v) =>
      (match MapValue(v)
       case Ok(m) => Normal(SetV(m.Values))
       case Err(e) => Thrown(AbortWith(e)))
  }

  /** Equal values collapse, so the range is never larger than the map. */
  lemma {:induction false} RangeNoLargerThanMap(m: map<Value, Value>)
    ensures |m.Values| <= |m|
    decreases |m|
  {
    if m != map[] {
      var k :| k in m;
      var rest := m - {k};
      RangeNoLargerThanMap(rest);
      forall y | y in m.Values
        ensures y in rest.Values + {m[k]}
      {
        var k' :| k' in m && m[k'] == y;
        if k' != k {
          assert k' in rest && rest[k'] == y;
        }
      }
      assert m.Values <= rest.Values + {m[k]};
      assert |rest| == |m| - 1;
    } else {
      assert m.Values == {};
    }
  }

  /** A value is in the result of `rng` exactly when some key of the map maps to it. */
  lemma MapRangeMembership(v: Value, y: Value)
    requires Deref(v).MapV?
    ensures EvalMapRange(Normal(v)).Normal? && EvalMapRange(Normal(v)).value.SetV?
    ensures y in EvalMapRange(Normal(v)).value.elems <==>
      exists k :: k in Deref(v).entries && Deref(v).entries[k] == y
  {
    var m := Deref(v).entries;
    assert EvalMapRange(Normal(v)).value.elems == m.Values;
    if y in m.Values {
      var k :| k in m && m[k] == y;
    }
  }

  /** The result of `rng` on a map has at most as many elements as the map; an empty map gives the empty set. */
  lemma MapRangeSize(m: map<Value, Value>)
    ensures EvalMapRange(Normal(MapV(m))).Normal?
    ensures |EvalMapRange(Normal(MapV(m))).value.elems| <= |m|
    ensures m == map[] ==> EvalMapRange(Normal(MapV(m))) == Normal(SetV({}))
  {
    RangeNoLargerThanMap(m);
  }
}
