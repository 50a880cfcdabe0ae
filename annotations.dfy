/**
 * The registry of evaluator annotations
 * (FJ-VDMJ4 in/annotations/INAnnotation.java): every annotation constructed
 * records its kind (its class) in a process-wide set of declared kinds and
 * itself in a process-wide list of instances; `reset` clears both, and `init`
 * runs each declared kind's one-time initialiser and then each instance's
 * own initialiser. The two static collections are the fields of a
 * `Registry` object.
 */
module Annotations {
  import opened Runtime

  /** An annotation kind: a subclass of the annotation class, known by its simple name. */
  datatype Kind = Kind(simpleName: string)

  /** An annotation: its kind, its name and the printed forms of its argument expressions. */
  datatype Annotation = Annotation(kind: Kind, name: string, args: seq<string>)

  /** One initialiser run by `init`: a kind's one-time initialiser, or the initialiser of the i-th instance. */
  datatype Step = ClassInit(kind: Kind) | InstanceInit(index: int)

  predicate Distinct<T(==)>(xs: seq<T>)
  {
    forall i, j :: 0 <= i < j < |xs| ==> xs[i] != xs[j]
  }

  /** The message of the exception that reports a failing kind initialiser: the kind's name, a colon, the failure. */
  function ClassInitFailure(k: Kind, failure: string): (x: RuntimeException)
    ensures x.OtherException? && |x.message| > |k.simpleName| && x.message[..|k.simpleName| + 1] == k.simpleName + ":"
  {
    var m := k.simpleName + ":" + failure;
    assert m[..|k.simpleName| + 1] == k.simpleName + ":";
    OtherException(m)
  }

  /**
   * The kind initialisers run in the order `order`, stopping at the first
   * that fails; `classInit(k)` is the failure of kind `k`'s initialiser, if any.
   */
  function ClassInits(order: seq<Kind>, classInit: Kind -> Option<string>): (res: (Option<RuntimeException>, seq<Step>))
    ensures |res.1| <= |order|
    ensures forall i :: 0 <= i < |res.1| ==> res.1[i] == ClassInit(order[i])
    ensures res.0.None? ==> |res.1| == |order|
    ensures res.0.Some? ==> res.1 != []
    decreases |order|
  {
    if order == [] then (None, [])
    else
      match classInit(order[0])
      case Some(failure) => (Some(ClassInitFailure(order[0], failure)), [ClassInit(order[0])])
      case None =>
        var rest := ClassInits(order[1..], classInit);
        (rest.0, [ClassInit(order[0])] + rest.1)
  }

  /**
   * The kind initialisers succeed exactly when each of them does; otherwise
   * the run stops at the first failing kind, whose failure it reports.
   */
  lemma {:induction false} ClassInitsVerdict(order: seq<Kind>, classInit: Kind -> Option<string>)
    ensures ClassInits(order, classInit).0.None? <==> forall k :: k in order ==> classInit(k).None?
    ensures var res := ClassInits(order, classInit);
      res.0.Some? ==>
        && (forall i :: 0 <= i < |res.1| - 1 ==> classInit(order[i]).None?)
        && classInit(order[|res.1| - 1]).Some?
        && res.0 == Some(ClassInitFailure(order[|res.1| - 1], classInit(order[|res.1| - 1]).value))
    decreases |order|
  {
    if order != [] && classInit(order[0]).None? {
      ClassInitsVerdict(order[1..], classInit);
      var rest := ClassInits(order[1..], classInit);
      assert ClassInits(order, classInit) == (rest.0, [ClassInit(order[0])] + rest.1);
      assert forall k :: k in order <==> k == order[0] || k in order[1..] by {
        assert order == [order[0]] + order[1..];
      }
      if rest.0.Some? {
        var n := |rest.1|;
        assert forall i :: 0 < i <= n ==> order[i] == order[1..][i - 1];
      }
    }
  }

  /**
   * The instance initialisers of `instances[from..]`, in registration order,
   * stopping at the first that throws.
   */
  function InstanceInits(instances: seq<Annotation>, from: nat,
                         instanceInit: Annotation -> Option<RuntimeException>)
    : (res: (Option<RuntimeException>, seq<Step>))
    requires from <= |instances|
    ensures |res.1| <= |instances| - from
    ensures forall i :: 0 <= i < |res.1| ==> res.1[i] == InstanceInit(from + i)
    ensures res.0.None? <==> forall i :: from <= i < |instances| ==> instanceInit(instances[i]).None?
    ensures res.0.None? ==> |res.1| == |instances| - from
    ensures res.0.Some? ==> res.1 != [] && res.0 == instanceInit(instances[from + |res.1| - 1])
    decreases |instances| - from
  {
    if from == |instances| then (None, [])
    else
      match instanceInit(instances[from])
      case Some(x) => (Some(x), [InstanceInit(from)])
      case None =>
        var rest := InstanceInits(instances, from + 1, instanceInit);
        (rest.0, [InstanceInit(from)] + rest.1)
  }

  /** `init` when the declared kinds are visited in the order `order`: the kinds' initialisers, then the instances'. */
  function InitRun(order: seq<Kind>, instances: seq<Annotation>, classInit: Kind -> Option<string>,
                   instanceInit: Annotation -> Option<RuntimeException>)
    : (res: (Option<RuntimeException>, seq<Step>))
  {
    var (failure, classLog) := ClassInits(order, classInit);
    if failure.Some? then (failure, classLog)
    else
      var (x, instanceLog) := InstanceInits(instances, 0, instanceInit);
      (x, classLog + instanceLog)
  }

  /** Some enumeration of a set, each element once: the iteration order of a hash set is not specified. */
  ghost function Enumerate(s: set<Kind>): (order: seq<Kind>)
    ensures |order| == |s| && Distinct(order)
    ensures forall k :: k in order <==> k in s
    decreases |s|
  {
    if s == {} then []
    else
      var k :| k in s;
      var rest := Enumerate(s - {k});
      assert forall i :: 0 <= i < |rest| ==> ([k] + rest)[i + 1] == rest[i];
      [k] + rest
  }

  /** The process-wide registry: the declared kinds and the annotation instances in order of construction. */
  class Registry {
    var declared: set<Kind>
    var instances: seq<Annotation>

    /** Every registered instance's kind is declared. */
    ghost predicate Valid()
      reads this
    {
      forall a :: a in instances ==> a.kind in declared
    }

    constructor()
      ensures declared == {} && instances == [] && Valid()
    {
      declared := {};
      instances := [];
    }

    /** Constructing an annotation: its kind joins the declared kinds and it joins the end of the instances. */
    method Register(a: Annotation)
      requires Valid()
      modifies this
      ensures declared == old(declared) + {a.kind}
      ensures instances == old(instances) + [a]
      ensures Valid()
    {
      declared := declared + {a.kind};
      instances := instances + [a];
    }

    /** `reset`: no kind is declared and there are no instances. */
    method Reset()
      modifies this
      ensures declared == {} && instances == [] && Valid()
    {
      declared := {};
      instances := [];
    }

    /**
     * `init`: each declared kind's initialiser once, in some order of the
     * declared set, then each instance's initialiser in registration order.
     * A failing kind initialiser is rethrown as an exception naming the kind;
     * an instance initialiser's exception escapes as it is. The registry is
     * not changed. `order` is the order in which the declared kinds were
     * visited; in a valid registry it holds the kind of every instance.
     */
    method Init(classInit: Kind -> Option<string>, instanceInit: Annotation -> Option<RuntimeException>)
      returns (r: Option<RuntimeException>, log: seq<Step>, ghost order: seq<Kind>)
      ensures Distinct(order) && |order| == |declared| && forall k :: k in order <==> k in declared
      ensures Valid() ==> forall a :: a in instances ==> a.kind in order
      ensures r == InitRun(order, instances, classInit, instanceInit).0
      ensures log == InitRun(order, instances, classInit, instanceInit).1
    {
      r, log, order := RunClassInits(declared, classInit);
      if r.None? {
        var instanceLog;
        r, instanceLog := RunInstanceInits(instances, instanceInit);
        log := log + instanceLog;
      }
    }
  }

  /**
   * The loop over the declared kinds: each initialiser once, in the order the
   * set is visited, stopping at the first that fails. `order` is that order.
   */
  method RunClassInits(kinds: set<Kind>, classInit: Kind -> Option<string>)
    returns (r: Option<RuntimeException>, log: seq<Step>, ghost order: seq<Kind>)
    ensures Distinct(order) && |order| == |kinds| && forall k :: k in order <==> k in kinds
    ensures (r, log) == ClassInits(order, classInit)
  {
    var remaining := kinds;
    ghost var done: seq<Kind> := [];
    log := [];
    while remaining != {}
      invariant remaining <= kinds && Distinct(done)
      invariant forall k :: k in done <==> k in kinds && k !in remaining
      invariant |done| + |remaining| == |kinds|
      invariant forall k :: k in done ==> classInit(k).None?
      invariant ClassInits(done, classInit) == (None, log)
      decreases |remaining|
    {
      var k :| k in remaining;
      log := log + [ClassInit(k)];
      ghost var tail := Enumerate(remaining - {k});
      assert |remaining - {k}| == |remaining| - 1;
      if classInit(k).Some? {
        order := done + [k] + tail;
        ClassInitsStopsAt(done, k, tail, classInit);
        OrderIsEnumeration(done, k, tail, remaining);
        return Some(ClassInitFailure(k, classInit(k).value)), log, order;
      }
      ClassInitsSnoc(done, k, classInit);
      OrderIsEnumeration(done, k, [], {k});
      done := done + [k];
      remaining := remaining - {k};
    }
    order := done;
    r := None;
  }

  /** The loop over the instances, in registration order, stopping at the first that throws. */
  method RunInstanceInits(instances: seq<Annotation>, instanceInit: Annotation -> Option<RuntimeException>)
    returns (r: Option<RuntimeException>, log: seq<Step>)
    ensures (r, log) == InstanceInits(instances, 0, instanceInit)
  {
    log := [];
    var i := 0;
    while i < |instances|
      invariant 0 <= i <= |instances|
      invariant forall j :: 0 <= j < i ==> instanceInit(instances[j]).None?
      invariant log == seq(i, j => InstanceInit(j))
    {
      log := log + [InstanceInit(i)];
      assert log == seq(i + 1, j => InstanceInit(0 + j));
      var x := instanceInit(instances[i]);
      if x.Some? {
        InstanceInitsStopsAt(instances, 0, i, instanceInit);
        assert InstanceInits(instances, 0, instanceInit) == (x, log);
        return x, log;
      }
      i := i + 1;
    }
    InstanceInitsStopsAt(instances, 0, i, instanceInit);
    assert log == seq(i - 0, j => InstanceInit(0 + j));
    r := None;
  }

  /** Appending a kind whose initialiser succeeds to a run that succeeded. */
  lemma {:induction false} ClassInitsSnoc(done: seq<Kind>, k: Kind, classInit: Kind -> Option<string>)
    requires ClassInits(done, classInit).0.None? && classInit(k).None?
    ensures ClassInits(done + [k], classInit).0.None?
    ensures ClassInits(done + [k], classInit).1 == ClassInits(done, classInit).1 + [ClassInit(k)]
    decreases |done|
  {
    if done != [] {
      assert classInit(done[0]).None?;
      var rest := ClassInits(done[1..], classInit);
      assert ClassInits(done, classInit) == (rest.0, [ClassInit(done[0])] + rest.1);
      assert (done + [k])[0] == done[0] && (done + [k])[1..] == done[1..] + [k];
      ClassInitsSnoc(done[1..], k, classInit);
      assert ClassInits(done + [k], classInit) == (None, [ClassInit(done[0])] + (rest.1 + [ClassInit(k)]));
      assert [ClassInit(done[0])] + (rest.1 + [ClassInit(k)]) == ClassInits(done, classInit).1 + [ClassInit(k)];
    } else {
      assert done + [k] == [k] && [k][1..] == [];
    }
  }

  /** A run that succeeded up to `k`, whose initialiser fails, stops at `k` whatever follows. */
  lemma {:induction false} ClassInitsStopsAt(done: seq<Kind>, k: Kind, tail: seq<Kind>, classInit: Kind -> Option<string>)
    requires ClassInits(done, classInit).0.None? && classInit(k).Some?
    ensures ClassInits(done + [k] + tail, classInit).0 == Some(ClassInitFailure(k, classInit(k).value))
    ensures ClassInits(done + [k] + tail, classInit).1 == ClassInits(done, classInit).1 + [ClassInit(k)]
    decreases |done|
  {
    if done != [] {
      assert classInit(done[0]).None?;
      var rest := ClassInits(done[1..], classInit);
      assert ClassInits(done, classInit) == (rest.0, [ClassInit(done[0])] + rest.1);
      assert (done + [k] + tail)[0] == done[0] && (done + [k] + tail)[1..] == done[1..] + [k] + tail;
      ClassInitsStopsAt(done[1..], k, tail, classInit);
      assert ClassInits(done + [k] + tail, classInit) ==
        (Some(ClassInitFailure(k, classInit(k).value)), [ClassInit(done[0])] + (rest.1 + [ClassInit(k)]));
      assert [ClassInit(done[0])] + (rest.1 + [ClassInit(k)]) == ClassInits(done, classInit).1 + [ClassInit(k)];
    } else {
      assert done + [k] + tail == [k] + tail;
      assert ([k] + tail)[0] == k;
    }
  }

  /** The instance run from `from`, when every instance from `from` up to `i` succeeded. */
  lemma {:induction false} InstanceInitsStopsAt(instances: seq<Annotation>, from: nat, i: nat,
                                                instanceInit: Annotation -> Option<RuntimeException>)
    requires from <= i <= |instances|
    requires forall j :: from <= j < i ==> instanceInit(instances[j]).None?
    ensures i < |instances| && instanceInit(instances[i]).Some? ==>
      && InstanceInits(instances, from, instanceInit).0 == instanceInit(instances[i])
      && InstanceInits(instances, from, instanceInit).1 == seq(i + 1 - from, j => InstanceInit(from + j))
    ensures i == |instances| ==>
      && InstanceInits(instances, from, instanceInit).0.None?
      && InstanceInits(instances, from, instanceInit).1 == seq(i - from, j => InstanceInit(from + j))
    decreases i - from
  {
    if from < i {
      InstanceInitsStopsAt(instances, from + 1, i, instanceInit);
      if (i < |instances| && instanceInit(instances[i]).Some?) || i == |instances| {
        var n := if i < |instances| then i + 1 - from else i - from;
        var rest := InstanceInits(instances, from + 1, instanceInit);
        assert instanceInit(instances[from]).None?;
        assert InstanceInits(instances, from, instanceInit).1 == [InstanceInit(from)] + rest.1;
        assert rest.1 == seq(n - 1, j => InstanceInit(from + 1 + j));
        assert [InstanceInit(from)] + seq(n - 1, j => InstanceInit(from + 1 + j)) == seq(n, j => InstanceInit(from + j));
      }
    } else if i < |instances| && instanceInit(instances[i]).Some? {
      assert seq(1, j => InstanceInit(from + j)) == [InstanceInit(from)];
      assert InstanceInits(instances, from, instanceInit).1 == [InstanceInit(from)];
    }
  }

  /** The visiting order built by `Init` enumerates the declared kinds. */
  lemma OrderIsEnumeration(done: seq<Kind>, k: Kind, tail: seq<Kind>, remaining: set<Kind>)
    requires Distinct(done) && k in remaining && (forall x :: x in done ==> x !in remaining)
    requires Distinct(tail) && (forall x :: x in tail <==> x in remaining - {k})
    ensures Distinct(done + [k] + tail)
    ensures forall x :: x in done + [k] + tail <==> x in done || x in remaining
  {
    var s := done + [k] + tail;
    forall i, j | 0 <= i < j < |s| ensures s[i] != s[j]
    {
      if j < |done| {
      } else if j == |done| {
        assert s[i] in done;
      } else if i < |done| {
        assert s[j] in tail;
      } else if i == |done| {
        assert s[j] in tail;
      } else {
        assert s[i] == tail[i - |done| - 1] && s[j] == tail[j - |done| - 1];
      }
    }
  }

  /**
   * Every kind initialiser runs before any instance initialiser, each kind's
   * at most once, and the instance initialisers run in registration order.
   */
  lemma ClassesBeforeInstances(order: seq<Kind>, instances: seq<Annotation>, classInit: Kind -> Option<string>,
                               instanceInit: Annotation -> Option<RuntimeException>)
    requires Distinct(order)
    ensures var log := InitRun(order, instances, classInit, instanceInit).1;
      forall i, j :: 0 <= i < j < |log| ==> !(log[i].InstanceInit? && log[j].ClassInit?)
    ensures var log := InitRun(order, instances, classInit, instanceInit).1;
      forall i, j :: 0 <= i < j < |log| && log[i].ClassInit? && log[j].ClassInit? ==> log[i].kind != log[j].kind
    ensures var log := InitRun(order, instances, classInit, instanceInit).1;
      forall i, j :: 0 <= i < j < |log| && log[i].InstanceInit? && log[j].InstanceInit? ==>
        log[i].index < log[j].index
  {
    var (failure, classLog) := ClassInits(order, classInit);
    if failure.None? {
      var instanceLog := InstanceInits(instances, 0, instanceInit).1;
      var log := classLog + instanceLog;
      assert forall i :: 0 <= i < |classLog| ==> log[i] == classLog[i];
      assert forall i :: |classLog| <= i < |log| ==> log[i] == instanceLog[i - |classLog|];
    }
  }

  /**
   * When `init` succeeds, every declared kind's initialiser and every
   * instance's initialiser ran exactly once: the log is the kinds in visiting
   * order followed by the instances in registration order.
   */
  lemma SuccessfulInitRunsAll(order: seq<Kind>, instances: seq<Annotation>, classInit: Kind -> Option<string>,
                              instanceInit: Annotation -> Option<RuntimeException>)
    requires InitRun(order, instances, classInit, instanceInit).0.None?
    ensures InitRun(order, instances, classInit, instanceInit).1 ==
      seq(|order|, i requires 0 <= i < |order| => ClassInit(order[i])) + seq(|instances|, i => InstanceInit(i))
  {
  }

  /**
   * A failing kind initialiser is reported as an exception naming that kind,
   * and then no instance initialiser runs.
   */
  lemma ClassFailureStopsInit(order: seq<Kind>, instances: seq<Annotation>, classInit: Kind -> Option<string>,
                              instanceInit: Annotation -> Option<RuntimeException>, k: Kind)
    requires k in order && classInit(k).Some?
    ensures InitRun(order, instances, classInit, instanceInit).0.Some?
    ensures forall s :: s in InitRun(order, instances, classInit, instanceInit).1 ==> s.ClassInit?
    ensures exists f ::
      && f in order && classInit(f).Some?
      && InitRun(order, instances, classInit, instanceInit).0 == Some(ClassInitFailure(f, classInit(f).value))
  {
    ClassInitsVerdict(order, classInit);
    var res := ClassInits(order, classInit);
    var f := order[|res.1| - 1];
    assert f in order;
  }

  /** The default `doInit`s do nothing and cannot fail. */
  function NoClassInit(k: Kind): Option<string> { None }
  function NoInstanceInit(a: Annotation): Option<RuntimeException> { None }

  /**
   * With the default initialisers `init` succeeds, running one initialiser
   * per declared kind and one per instance.
   */
  lemma DefaultInitSucceeds(order: seq<Kind>, instances: seq<Annotation>)
    ensures InitRun(order, instances, NoClassInit, NoInstanceInit).0.None?
    ensures |InitRun(order, instances, NoClassInit, NoInstanceInit).1| == |order| + |instances|
  {
    ClassInitsVerdict(order, NoClassInit);
  }

  /** `toString`: "@" and the name, followed by the parenthesised arguments only when there are any. */
  function ToString(a: Annotation, showArgs: seq<string> -> string): (s: string)
    ensures |s| > |a.name| && s[..|a.name| + 1] == "@" + a.name
    ensures a.args == [] <==> s == "@" + a.name
    ensures a.args != [] ==> |s| >= |a.name| + 3 && s[|a.name| + 1] == '(' && s[|s| - 1] == ')' &&
                             s[|a.name| + 2..|s| - 1] == showArgs(a.args)
  {
    var s := "@" + a.name + (if a.args == [] then "" else "(" + showArgs(a.args) + ")");
    assert s[..|a.name| + 1] == "@" + a.name;
    if a.args == [] then s
    else
      assert |s| == |a.name| + 3 + |showArgs(a.args)|;
      assert s[|a.name| + 2..|s| - 1] == showArgs(a.args);
      s
  }
}
