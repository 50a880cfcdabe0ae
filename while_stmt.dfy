/**
 * The `while` statement of the evaluator
 * (FJ-VDMJ4 in/statements/INWhileStatement.java).
 * The state the condition and the body read and change is abstract (`S`);
 * evaluating the condition and the body are the functions `cond` and
 * `body`. Because a `while` loop need not end, the model runs it for at most
 * `fuel` evaluations of the condition and answers `None` when that bound is
 * reached first.
 */
module WhileStatements {
  import opened Runtime

  /** What the loop does, in order: the suspension check, a condition evaluation, a body evaluation. */
  datatype Event = Suspend | Condition | Body

  /** The final state, the outcome (`None` once the fuel is spent) and the events of the loop itself. */
  datatype Run<S> = Run(state: S, outcome: Option<Outcome<Value>>, events: seq<Event>)

  /**
   * The loop from state `s`: the condition, coerced to a boolean, is
   * evaluated before every iteration; a false condition ends the loop with
   * void, a body result that is not void ends it with that result, and an
   * escaping exception or a failed coercion ends it abnormally.
   */
  function Loop<S>(s: S, cond: S -> (S, Outcome<Value>), body: S -> (S, Outcome<Value>), fuel: nat): (w: Run<S>)
    ensures fuel == 0 ==> w == Run(s, None, [])
    decreases fuel
  {
    if fuel == 0 then Run(s, None, [])
    else
      var (s1, c) := cond(s);
      match c
      case Thrown(x) => Run(s1, Some(Thrown(x)), [Condition])
      case Normal(v) =>
        match BoolValue(v)
        case Err(e) => Run(s1, Some(Thrown(AbortWith(e))), [Condition])
        case Ok(b) =>
          if !b then Run(s1, Some(Normal(VoidV)), [Condition])
          else
            var (s2, rv) := body(s1);
            if rv.Thrown? || !Deref(rv.value).VoidV? then Run(s2, Some(rv), [Condition, Body])
            else
              var rest := Loop(s2, cond, body, fuel - 1);
              Run(rest.state, rest.outcome, [Condition, Body] + rest.events)
  }

  /**
   * `eval`: one suspension check on entry, then the loop. The result is
   * the loop's outcome, and the trace is the suspension check followed by
   * the loop's events.
   */
  method EvalWhile<S>(s: S, cond: S -> (S, Outcome<Value>), body: S -> (S, Outcome<Value>), fuel: nat)
    returns (final: S, r: Option<Outcome<Value>>, trace: seq<Event>)
    ensures Run(final, r, trace) == Run(Loop(s, cond, body, fuel).state, Loop(s, cond, body, fuel).outcome,
                                        [Suspend] + Loop(s, cond, body, fuel).events)
  {
    trace := [Suspend];
    var st := s;
    var n := fuel;
    while n > 0
      invariant Loop(s, cond, body, fuel).state == Loop(st, cond, body, n).state
      invariant Loop(s, cond, body, fuel).outcome == Loop(st, cond, body, n).outcome
      invariant [Suspend] + Loop(s, cond, body, fuel).events == trace + Loop(st, cond, body, n).events
      decreases n
    {
      var (s1, c) := cond(st);
      trace := trace + [Condition];
      if c.Thrown? {
        return s1, Some(c), trace;
      }
      var bv := BoolValue(c.value);
      if bv.Err? {
        return s1, Some(Thrown(AbortWith(bv.error))), trace;
      }
      if !bv.value {
        return s1, Some(Normal(VoidV)), trace;
      }
      var (s2, rv) := body(s1);
      assert Loop(st, cond, body, n).events == [Condition, Body] + Loop(s2, cond, body, n - 1).events
        || rv.Thrown? || !Deref(rv.value).VoidV?;
      trace := trace + [Body];
      if rv.Thrown? || !Deref(rv.value).VoidV? {
        return s2, Some(rv), trace;
      }
      st := s2;
      n := n - 1;
    }
    final, r := st, None;
  }

  /** A condition that is false on entry gives void, and the body never runs. */
  lemma FalseOnEntry<S>(s: S, cond: S -> (S, Outcome<Value>), body: S -> (S, Outcome<Value>), fuel: nat)
    requires fuel > 0 && cond(s).1.Normal? && Deref(cond(s).1.value) == BoolV(false)
    ensures Loop(s, cond, body, fuel) == Run(cond(s).0, Some(Normal(VoidV)), [Condition])
    ensures Body !in Loop(s, cond, body, fuel).events
  {
  }

  /** A first body result that is not void is returned unchanged, and nothing runs after it. */
  lemma FirstNonVoidReturned<S>(s: S, cond: S -> (S, Outcome<Value>), body: S -> (S, Outcome<Value>), fuel: nat)
    requires fuel > 0 && cond(s).1.Normal? && Deref(cond(s).1.value) == BoolV(true)
    requires body(cond(s).0).1.Normal? && !Deref(body(cond(s).0).1.value).VoidV?
    ensures Loop(s, cond, body, fuel) == Run(body(cond(s).0).0, Some(body(cond(s).0).1), [Condition, Body])
  {
  }

  /** A void body result leads to the condition being evaluated again, from the body's final state. */
  lemma VoidBodyContinues<S>(s: S, cond: S -> (S, Outcome<Value>), body: S -> (S, Outcome<Value>), fuel: nat)
    requires fuel > 0 && cond(s).1.Normal? && Deref(cond(s).1.value) == BoolV(true)
    requires body(cond(s).0).1.Normal? && Deref(body(cond(s).0).1.value).VoidV?
    ensures Loop(s, cond, body, fuel).outcome == Loop(body(cond(s).0).0, cond, body, fuel - 1).outcome
    ensures Loop(s, cond, body, fuel).events == [Condition, Body] + Loop(body(cond(s).0).0, cond, body, fuel - 1).events
  {
  }

  /** A condition that is not a boolean aborts with the coercion error, before any body evaluation. */
  lemma ConditionCoercionAborts<S>(s: S, cond: S -> (S, Outcome<Value>), body: S -> (S, Outcome<Value>), fuel: nat)
    requires fuel > 0 && cond(s).1.Normal? && !Deref(cond(s).1.value).BoolV?
    ensures Loop(s, cond, body, fuel).outcome == Some(Thrown(AbortWith(CoercionFailure("bool", cond(s).1.value))))
    ensures Body !in Loop(s, cond, body, fuel).events
  {
  }

  /**
   * The loop's events hold no suspension check, so `eval` makes exactly one;
   * they alternate condition and body, starting with a condition.
   */
  lemma {:induction false} NoSuspendInLoop<S>(s: S, cond: S -> (S, Outcome<Value>), body: S -> (S, Outcome<Value>), fuel: nat)
    ensures Suspend !in Loop(s, cond, body, fuel).events
    ensures forall i :: 0 <= i < |Loop(s, cond, body, fuel).events| ==>
      Loop(s, cond, body, fuel).events[i] == (if i % 2 == 0 then Condition else Body)
    decreases fuel
  {
    if fuel > 0 {
      var (s1, c) := cond(s);
      if c.Normal? && BoolValue(c.value) == Ok(true) {
        var (s2, rv) := body(s1);
        if rv.Normal? && Deref(rv.value).VoidV? {
          NoSuspendInLoop(s2, cond, body, fuel - 1);
          var rest := Loop(s2, cond, body, fuel - 1).events;
          assert Loop(s, cond, body, fuel).events == [Condition, Body] + rest;
          forall i | 2 <= i < 2 + |rest|
            ensures ([Condition, Body] + rest)[i] == (if i % 2 == 0 then Condition else Body)
          {
            assert ([Condition, Body] + rest)[i] == rest[i - 2];
          }
        }
      }
    }
  }

  /**
   * A normal outcome after a condition evaluation is always void: a value
   * other than void can only come from the body, as the last event.
   */
  lemma {:induction false} NormalEndIsVoidOrBodyValue<S>(s: S, cond: S -> (S, Outcome<Value>), body: S -> (S, Outcome<Value>), fuel: nat)
    requires Loop(s, cond, body, fuel).outcome.Some? && Loop(s, cond, body, fuel).outcome.value.Normal?
    ensures Loop(s, cond, body, fuel).events != []
    ensures Loop(s, cond, body, fuel).events[|Loop(s, cond, body, fuel).events| - 1] == Condition ==>
      Loop(s, cond, body, fuel).outcome.value.value == VoidV
    ensures !Deref(Loop(s, cond, body, fuel).outcome.value.value).VoidV? ==>
      Loop(s, cond, body, fuel).events[|Loop(s, cond, body, fuel).events| - 1] == Body
    decreases fuel
  {
    var (s1, c) := cond(s);
    if c.Normal? && BoolValue(c.value) == Ok(true) {
      var (s2, rv) := body(s1);
      if rv.Normal? && Deref(rv.value).VoidV? {
        NormalEndIsVoidOrBodyValue(s2, cond, body, fuel - 1);
      }
    }
  }

  /** The fuel only bounds the run: once the loop has finished, more fuel changes nothing. */
  lemma {:induction false} MoreFuelSameRun<S>(s: S, cond: S -> (S, Outcome<Value>), body: S -> (S, Outcome<Value>), fuel: nat, more: nat)
    requires Loop(s, cond, body, fuel).outcome.Some?
    requires fuel <= more
    ensures Loop(s, cond, body, more) == Loop(s, cond, body, fuel)
    decreases fuel
  {
    var (s1, c) := cond(s);
    if c.Normal? && BoolValue(c.value) == Ok(true) {
      var (s2, rv) := body(s1);
      if rv.Normal? && Deref(rv.value).VoidV? {
        MoreFuelSameRun(s2, cond, body, fuel - 1, more - 1);
      }
    }
  }
}
