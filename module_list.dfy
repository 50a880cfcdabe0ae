/**
 * The list of modules of a specification at the evaluation stage
 * (FJ-VDMJ4 in/modules/INModuleList.java): the static initialisation of all
 * modules, with its retry passes and its choice of the error to report, and
 * the simple lookups over the list. The evaluator state a module's
 * initialisation reads and changes is abstract (`S`); initialising one
 * module is the function `attempt`, which answers the module's problems, or
 * `None` (Java's null) when there are none.
 */
module ModuleList {
  import opened Runtime

  /** The error number of "name is not in scope", which the initialiser reports only when nothing else went wrong. */
  const NotInScope: int := 4034

  /** The number of initialisation passes. */
  const MaxPasses: int := 5

  /**
   * An initialisation error: the identity of the exception object, its
   * number, its message and whether it is a stack overflow. Exceptions are
   * compared by identity, so two errors with the same number and message
   * raised separately are two members of a set of problems.
   */
  datatype InitError = InitError(id: nat, number: int, message: string, stackOverflow: bool)

  /** A definition of a module: its name (none for some kinds) and whether it is a named trace definition. */
  datatype INDef = INDef(name: Option<Name>, isTrace: bool)

  /** A module: its name, its source files and its definitions. */
  datatype INModule = INModule(name: Name, files: set<string>, defs: seq<INDef>)

  /** The global settings; only the flag that turns runtime exception handling on matters here. */
  class Settings {
    var exceptions: bool

    constructor(exceptions: bool)
      ensures this.exceptions == exceptions
    {
      this.exceptions := exceptions;
    }
  }

  /** A module's problems are a lone stack overflow. */
  predicate LoneOverflow(errs: set<InitError>)
  {
    |errs| == 1 && forall x :: x in errs ==> x.stackOverflow
  }

  /** The state after a pass, or after a part of one, and whether it was cut short by a stack overflow. */
  datatype Pass<S> = Pass(state: S, passed: set<Name>, problems: set<InitError>, overflow: bool, attempted: seq<nat>)

  /**
   * One pass over the modules from index `i`: a module whose name has
   * passed is skipped; a module without problems passes; the problems of the
   * others are collected, and a lone stack overflow ends the pass at once.
   * `attempted` lists the indices of the modules initialised.
   */
  function PassFrom<S>(ms: seq<INModule>, i: nat, s: S, passed: set<Name>, problems: set<InitError>,
                       attempt: (S, INModule) -> (S, Option<set<InitError>>)): (p: Pass<S>)
    requires i <= |ms|
    decreases |ms| - i
  {
    if i == |ms| then Pass(s, passed, problems, false, [])
    else if ms[i].name in passed then PassFrom(ms, i + 1, s, passed, problems, attempt)
    else
      var (s1, e) := attempt(s, ms[i]);
      match e
      case None =>
        var p := PassFrom(ms, i + 1, s1, passed + {ms[i].name}, problems, attempt);
        p.(attempted := [i] + p.attempted)
      case Some(errs) =>
        if LoneOverflow(errs) then Pass(s1, passed, problems + errs, true, [i])
        else
          var p := PassFrom(ms, i + 1, s1, passed, problems + errs, attempt);
          p.(attempted := [i] + p.attempted)
  }

  /** The outcome of the passes: the final state, the last pass's problems and the number of passes made. */
  datatype Passes<S> = Passes(state: S, passed: set<Name>, problems: set<InitError>, count: nat)

  /**
   * The passes, `retries` being the counter before the next pass: a pass
   * cut short by a stack overflow sets it to 0; another pass follows while
   * the decremented counter is positive and the pass had problems.
   */
  function Run<S>(ms: seq<INModule>, s: S, passed: set<Name>, retries: int,
                  attempt: (S, INModule) -> (S, Option<set<InitError>>)): (r: Passes<S>)
    ensures r.count >= 1
    decreases retries
  {
    var p := PassFrom(ms, 0, s, passed, {}, attempt);
    var left := (if p.overflow then 0 else retries) - 1;
    if left > 0 && p.problems != {} then
      var r := Run(ms, p.state, p.passed, left, attempt);
      r.(count := r.count + 1)
    else Passes(p.state, p.passed, p.problems, 1)
  }

  /** The last of `xs` whose number is not 4034, or `otherwise` when there is none. */
  function LastOther(xs: seq<InitError>, otherwise: InitError): (e: InitError)
    decreases |xs|
  {
    if xs == [] then otherwise
    else if xs[|xs| - 1].number != NotInScope then xs[|xs| - 1]
    else LastOther(xs[..|xs| - 1], otherwise)
  }

  /**
   * The error reported for the problems visited in the order `order`: the
   * first of them, replaced by each later one whose number is not 4034.
   */
  function Chosen(order: seq<InitError>): (e: InitError)
    requires order != []
  {
    LastOther(order, order[0])
  }

  /** Some enumeration of a set of errors, each once: the iteration order of a hash set is not specified. */
  ghost function Enumerate(s: set<InitError>): (order: seq<InitError>)
    ensures |order| == |s|
    ensures forall e :: e in order <==> e in s
    decreases |s|
  {
    if s == {} then []
    else
      var e :| e in s;
      [e] + Enumerate(s - {e})
  }

  /**
   * `initialize`: initialisation passes with runtime exception handling
   * switched off, then, if the last pass had problems, one of them is thrown,
   * and the handling flag keeps its `false`; otherwise the flag is restored.
   * `order` is the order in which the last pass's problems were visited.
   */
  method Initialize<S>(settings: Settings, ms: seq<INModule>, s: S,
                       attempt: (S, INModule) -> (S, Option<set<InitError>>))
    returns (final: S, thrown: Option<InitError>, ghost order: seq<InitError>)
    modifies settings
    ensures final == Run(ms, s, {}, MaxPasses, attempt).state
    ensures thrown.None? <==> Run(ms, s, {}, MaxPasses, attempt).problems == {}
    ensures thrown.Some? ==> order != [] && (forall e :: e in order <==> e in Run(ms, s, {}, MaxPasses, attempt).problems) &&
                             thrown.value == Chosen(order)
    ensures settings.exceptions == (if thrown.None? then old(settings.exceptions) else false)
  {
    var exceptions := settings.exceptions;
    settings.exceptions := false;
    var problems: set<InitError> := {};
    var passed: set<Name> := {};
    var retries := MaxPasses;
    var st := s;
    var count := 0;
    ghost var st0, passed0, retries0 := st, passed, retries;
    while true
      invariant retries >= 1 && !settings.exceptions
      invariant Run(ms, s, {}, MaxPasses, attempt).state == Run(ms, st, passed, retries, attempt).state
      invariant Run(ms, s, {}, MaxPasses, attempt).problems == Run(ms, st, passed, retries, attempt).problems
      decreases retries
    {
      st0, passed0, retries0 := st, passed, retries;
      problems := {};
      var i := 0;
      var overflow := false;
      while i < |ms|
        invariant 0 <= i <= |ms|
        invariant PassFrom(ms, 0, st0, passed0, {}, attempt).state == PassFrom(ms, i, st, passed, problems, attempt).state
        invariant PassFrom(ms, 0, st0, passed0, {}, attempt).passed == PassFrom(ms, i, st, passed, problems, attempt).passed
        invariant PassFrom(ms, 0, st0, passed0, {}, attempt).problems == PassFrom(ms, i, st, passed, problems, attempt).problems
        invariant PassFrom(ms, 0, st0, passed0, {}, attempt).overflow == PassFrom(ms, i, st, passed, problems, attempt).overflow
        invariant !overflow && !settings.exceptions
      {
        if ms[i].name in passed {
          i := i + 1;
          continue;
        }
        var (s1, e) := attempt(st, ms[i]);
        st := s1;
        if e.Some? {
          problems := problems + e.value;
          if LoneOverflow(e.value) {
            overflow := true;
            break;
          }
        } else {
          passed := passed + {ms[i].name};
        }
        i := i + 1;
      }
      if overflow {
        retries := 0;
      }
      ghost var p := PassFrom(ms, 0, st0, passed0, {}, attempt);
      assert p.state == st && p.passed == passed && p.problems == problems && p.overflow == overflow;
      count := count + 1;
      retries := retries - 1;
      if !(retries > 0 && problems != {}) {
        assert Run(ms, st0, passed0, retries0, attempt).problems == problems;
        break;
      }
    }
    if problems != {} {
      var toThrow :| toThrow in problems;
      var rest := problems - {toThrow};
      order := [toThrow];
      ChosenSingleton(toThrow);
      while rest != {}
        invariant rest <= problems && |order| + |rest| == |problems|
        invariant forall e :: e in order <==> e in problems && e !in rest
        invariant order != [] && toThrow == Chosen(order) && !settings.exceptions
        decreases |rest|
      {
        var e :| e in rest;
        if e.number != NotInScope {
          toThrow := e;
        }
        ChosenSnoc(order, e);
        order := order + [e];
        rest := rest - {e};
      }
      return st, Some(toThrow), order;
    }
    settings.exceptions := exceptions;
    final, thrown, order := st, None, [];
  }

  /** Visiting one more problem: it is chosen if its number is not 4034 or if it is the first. */
  lemma ChosenSnoc(order: seq<InitError>, e: InitError)
    ensures Chosen(order + [e]) == if order == [] || e.number != NotInScope then e else Chosen(order)
  {
    var o := order + [e];
    assert o[..|o| - 1] == order;
    if order != [] {
      assert o[0] == order[0];
    } else {
      assert o == [e];
      ChosenSingleton(e);
    }
  }

  /** A lone problem is the one reported. */
  lemma ChosenSingleton(e: InitError)
    ensures Chosen([e]) == e
  {
    assert [e][..0] == [];
    assert LastOther([], e) == e;
  }

  /**
   * `LastOther` answers the last element whose number is not 4034, and the
   * fallback only when every number is 4034.
   */
  lemma {:induction false} LastOtherIsLast(xs: seq<InitError>, otherwise: InitError)
    ensures LastOther(xs, otherwise) == otherwise <== forall k :: 0 <= k < |xs| ==> xs[k].number == NotInScope
    ensures (exists k :: 0 <= k < |xs| && xs[k].number != NotInScope) ==>
      exists k :: 0 <= k < |xs| && LastOther(xs, otherwise) == xs[k] && xs[k].number != NotInScope &&
                  forall j :: k < j < |xs| ==> xs[j].number == NotInScope
    decreases |xs|
  {
    if xs != [] && xs[|xs| - 1].number == NotInScope {
      var init := xs[..|xs| - 1];
      LastOtherIsLast(init, otherwise);
      assert forall k :: 0 <= k < |init| ==> init[k] == xs[k];
    }
  }

  /**
   * The reported error is one of the problems, and it is numbered 4034 only
   * when every problem is; otherwise it is the last problem visited whose
   * number is not 4034.
   */
  lemma ChosenPrefersOtherErrors(order: seq<InitError>)
    requires order != []
    ensures Chosen(order) in order
    ensures Chosen(order).number == NotInScope <==> forall k :: 0 <= k < |order| ==> order[k].number == NotInScope
    ensures Chosen(order).number != NotInScope ==>
      exists k :: 0 <= k < |order| && Chosen(order) == order[k] &&
                  forall j :: k < j < |order| ==> order[j].number == NotInScope
  {
    LastOtherIsLast(order, order[0]);
  }

  /** Within a pass, a module whose name has passed is never attempted, and passing only adds names. */
  lemma {:induction false} PassSkipsPassed<S>(ms: seq<INModule>, i: nat, s: S, passed: set<Name>, problems: set<InitError>,
                                               attempt: (S, INModule) -> (S, Option<set<InitError>>))
    requires i <= |ms|
    ensures passed <= PassFrom(ms, i, s, passed, problems, attempt).passed
    ensures problems <= PassFrom(ms, i, s, passed, problems, attempt).problems
    ensures forall k :: k in PassFrom(ms, i, s, passed, problems, attempt).attempted ==>
      i <= k < |ms| && ms[k].name !in passed
    ensures forall n :: n in PassFrom(ms, i, s, passed, problems, attempt).passed - passed ==>
      exists k :: k in PassFrom(ms, i, s, passed, problems, attempt).attempted && ms[k].name == n
    decreases |ms| - i
  {
    if i < |ms| && ms[i].name !in passed {
      var (s1, e) := attempt(s, ms[i]);
      if e.None? {
        PassSkipsPassed(ms, i + 1, s1, passed + {ms[i].name}, problems, attempt);
        var p := PassFrom(ms, i + 1, s1, passed + {ms[i].name}, problems, attempt);
        forall n | n in p.passed - passed
          ensures exists k :: k in [i] + p.attempted && ms[k].name == n
        {
          if n == ms[i].name {
            assert i in [i] + p.attempted;
          } else {
            assert n in p.passed - (passed + {ms[i].name});
            var k :| k in p.attempted && ms[k].name == n;
            assert k in [i] + p.attempted;
          }
        }
      } else if !LoneOverflow(e.value) {
        PassSkipsPassed(ms, i + 1, s1, passed, problems + e.value, attempt);
      }
    } else if i < |ms| {
      PassSkipsPassed(ms, i + 1, s, passed, problems, attempt);
    }
  }

  /** A pass cut short by a stack overflow ends the initialisation: no further pass follows. */
  lemma OverflowStops<S>(ms: seq<INModule>, s: S, passed: set<Name>, retries: int,
                         attempt: (S, INModule) -> (S, Option<set<InitError>>))
    requires PassFrom(ms, 0, s, passed, {}, attempt).overflow
    ensures Run(ms, s, passed, retries, attempt).count == 1
    ensures Run(ms, s, passed, retries, attempt).problems == PassFrom(ms, 0, s, passed, {}, attempt).problems
  {
    var p := PassFrom(ms, 0, s, passed, {}, attempt);
    assert Run(ms, s, passed, retries, attempt) == Passes(p.state, p.passed, p.problems, 1);
  }

  /**
   * At most five passes are made, and the problems reported are those of the
   * last pass alone.
   */
  lemma {:induction false} AtMostRetriesPasses<S>(ms: seq<INModule>, s: S, passed: set<Name>, retries: int,
                                                  attempt: (S, INModule) -> (S, Option<set<InitError>>))
    ensures Run(ms, s, passed, retries, attempt).count <= if retries < 1 then 1 else retries
    ensures Run(ms, s, passed, retries, attempt).count == 1 ==>
      Run(ms, s, passed, retries, attempt).problems == PassFrom(ms, 0, s, passed, {}, attempt).problems
    decreases retries
  {
    var p := PassFrom(ms, 0, s, passed, {}, attempt);
    var left := (if p.overflow then 0 else retries) - 1;
    if left > 0 && p.problems != {} {
      AtMostRetriesPasses(ms, p.state, p.passed, left, attempt);
    }
  }

  /**
   * A pass with problems and no stack overflow is followed by another pass
   * while the decremented counter is positive; the reported problems are
   * the later passes' ones.
   */
  lemma ProblemsContinue<S>(ms: seq<INModule>, s: S, passed: set<Name>, retries: int,
                            attempt: (S, INModule) -> (S, Option<set<InitError>>))
    requires !PassFrom(ms, 0, s, passed, {}, attempt).overflow && PassFrom(ms, 0, s, passed, {}, attempt).problems != {}
    requires retries > 1
    ensures Run(ms, s, passed, retries, attempt).count >= 2
    ensures Run(ms, s, passed, retries, attempt) ==
      var p := PassFrom(ms, 0, s, passed, {}, attempt);
      var r := Run(ms, p.state, p.passed, retries - 1, attempt);
      r.(count := r.count + 1)
  {
  }

  /**
   * Modules that never stop failing, without a stack overflow, are
   * attempted in exactly `retries` passes (five, from `initialize`).
   */
  lemma {:induction false} PersistentRunsAll<S>(ms: seq<INModule>, s: S, passed: set<Name>, retries: int,
                                                attempt: (S, INModule) -> (S, Option<set<InitError>>))
    requires retries >= 1
    requires forall t: S, ps: set<Name> ::
      !PassFrom(ms, 0, t, ps, {}, attempt).overflow && PassFrom(ms, 0, t, ps, {}, attempt).problems != {}
    ensures Run(ms, s, passed, retries, attempt).count == retries
    decreases retries
  {
    var p := PassFrom(ms, 0, s, passed, {}, attempt);
    assert !p.overflow && p.problems != {};
    if retries - 1 > 0 {
      PersistentRunsAll(ms, p.state, p.passed, retries - 1, attempt);
    }
  }

  /** The initialisation stops as soon as a pass has no problems. */
  lemma CleanPassEnds<S>(ms: seq<INModule>, s: S, passed: set<Name>, retries: int,
                         attempt: (S, INModule) -> (S, Option<set<InitError>>))
    requires PassFrom(ms, 0, s, passed, {}, attempt).problems == {}
    ensures Run(ms, s, passed, retries, attempt).count == 1 && Run(ms, s, passed, retries, attempt).problems == {}
  {
  }

  /** Every module passes on the first attempt: one pass, no problems, every module's name passed. */
  lemma {:induction false} AllPassFirstTime<S>(ms: seq<INModule>, i: nat, s: S, passed: set<Name>, problems: set<InitError>,
                                               attempt: (S, INModule) -> (S, Option<set<InitError>>))
    requires i <= |ms|
    requires forall t: S, m: INModule :: attempt(t, m).1.None?
    ensures PassFrom(ms, i, s, passed, problems, attempt).problems == problems
    ensures forall k :: i <= k < |ms| ==> ms[k].name in PassFrom(ms, i, s, passed, problems, attempt).passed
    decreases |ms| - i
  {
    if i < |ms| {
      var s1 := attempt(s, ms[i]).0;
      if ms[i].name in passed {
        PassSkipsPassed(ms, i + 1, s, passed, problems, attempt);
        AllPassFirstTime(ms, i + 1, s, passed, problems, attempt);
      } else {
        PassSkipsPassed(ms, i + 1, s1, passed + {ms[i].name}, problems, attempt);
        AllPassFirstTime(ms, i + 1, s1, passed + {ms[i].name}, problems, attempt);
      }
    }
  }

  /** `getSourceFiles`: the union of the modules' source files. */
  method GetSourceFiles(ms: seq<INModule>) returns (files: set<string>)
    ensures forall f :: f in files <==> exists m :: m in ms && f in m.files
  {
    files := {};
    var i := 0;
    while i < |ms|
      invariant 0 <= i <= |ms|
      invariant forall f :: f in files <==> exists m :: m in ms[..i] && f in m.files
    {
      assert ms[..i + 1] == ms[..i] + [ms[i]];
      files := files + ms[i].files;
      i := i + 1;
    }
    assert ms[..i] == ms;
  }

  /** `findModule`: the first module of the list with the name, or none. */
  method FindModule(ms: seq<INModule>, name: Name) returns (r: Option<INModule>)
    ensures r.None? <==> forall i :: 0 <= i < |ms| ==> ms[i].name != name
    ensures r.Some? ==> exists i :: 0 <= i < |ms| && ms[i] == r.value && ms[i].name == name &&
                                    forall j :: 0 <= j < i ==> ms[j].name != name
  {
    var i := 0;
    while i < |ms|
      invariant 0 <= i <= |ms|
      invariant forall j :: 0 <= j < i ==> ms[j].name != name
    {
      if ms[i].name == name {
        return Some(ms[i]);
      }
      i := i + 1;
    }
    return None;
  }

  /**
   * `findStatement` and `findExpression`: the first answer of a module's own
   * search (`find`) for the file and line, asking the modules in order.
   */
  method FindFirst<T>(ms: seq<INModule>, find: INModule -> Option<T>) returns (r: Option<T>)
    ensures r.None? <==> forall i :: 0 <= i < |ms| ==> find(ms[i]).None?
    ensures r.Some? ==> exists i :: 0 <= i < |ms| && r == find(ms[i]) &&
                                    forall j :: 0 <= j < i ==> find(ms[j]).None?
  {
    var i := 0;
    while i < |ms|
      invariant 0 <= i <= |ms|
      invariant forall j :: 0 <= j < i ==> find(ms[j]).None?
    {
      var found := find(ms[i]);
      if found.Some? {
        return found;
      }
      i := i + 1;
    }
    return None;
  }

  function DefsOf(m: INModule): seq<INDef> { m.defs }

  /** All definitions of the modules, module by module. */
  function AllDefs(ms: seq<INModule>): seq<INDef>
  {
    ConcatMap(ms, DefsOf)
  }

  /** The index of the first definition with the name, if any. */
  function FirstNamed(defs: seq<INDef>, name: Name): (r: Option<nat>)
    ensures r.None? <==> forall k :: 0 <= k < |defs| ==> defs[k].name != Some(name)
    ensures r.Some? ==> r.value < |defs| && defs[r.value].name == Some(name) &&
                        forall k :: 0 <= k < r.value ==> defs[k].name != Some(name)
  {
    if defs == [] then None
    else if defs[0].name == Some(name) then Some(0)
    else
      var r := FirstNamed(defs[1..], name);
      assert forall k :: 0 < k < |defs| ==> defs[k] == defs[1..][k - 1];
      if r.None? then None else Some(r.value + 1)
  }

  /** The answer of `findTraceDefinition`: the first definition with the name, if it is a trace definition. */
  function TraceLookup(defs: seq<INDef>, name: Name): (r: Option<INDef>)
    ensures r.Some? ==> r.value in defs && r.value.isTrace && r.value.name == Some(name)
  {
    match FirstNamed(defs, name)
    case None => None
    case Some(k) => if defs[k].isTrace then Some(defs[k]) else None
  }

  /**
   * `findTraceDefinition`: the search stops at the first definition, module
   * by module, whose name is the one sought, and answers it only if it is a
   * trace definition.
   */
  method FindTraceDefinition(ms: seq<INModule>, name: Name) returns (r: Option<INDef>)
    ensures r == TraceLookup(AllDefs(ms), name)
  {
    var i := 0;
    while i < |ms|
      invariant 0 <= i <= |ms|
      invariant forall d :: d in AllDefs(ms[..i]) ==> d.name != Some(name)
    {
      var defs := ms[i].defs;
      var j := 0;
      while j < |defs|
        invariant 0 <= j <= |defs|
        invariant forall k :: 0 <= k < j ==> defs[k].name != Some(name)
      {
        var d := defs[j];
        if d.name == Some(name) {
          FoundAt(ms, i, j, name);
          return if d.isTrace then Some(d) else None;
        }
        j := j + 1;
      }
      assert ms[..i + 1] == ms[..i] + [ms[i]];
      ConcatMapAppend(ms[..i], [ms[i]], DefsOf);
      assert [ms[i]][1..] == [];
      i := i + 1;
    }
    assert ms[..i] == ms;
    assert FirstNamed(AllDefs(ms), name).None?;
    return None;
  }

  /** The first definition with the name, found at definition `j` of module `i`, is the first of all of them. */
  lemma FoundAt(ms: seq<INModule>, i: nat, j: nat, name: Name)
    requires i < |ms| && j < |ms[i].defs| && ms[i].defs[j].name == Some(name)
    requires forall d :: d in AllDefs(ms[..i]) ==> d.name != Some(name)
    requires forall k :: 0 <= k < j ==> ms[i].defs[k].name != Some(name)
    ensures FirstNamed(AllDefs(ms), name) == Some(|AllDefs(ms[..i])| + j)
    ensures AllDefs(ms)[|AllDefs(ms[..i])| + j] == ms[i].defs[j]
  {
    var before, mid, after := AllDefs(ms[..i]), ms[i].defs, AllDefs(ms[i + 1..]);
    AllDefsSplit(ms, i);
    var all := AllDefs(ms);
    var idx := |before| + j;
    assert all[idx] == mid[j];
    forall k | 0 <= k < idx ensures all[k].name != Some(name)
    {
      if k < |before| {
        assert all[k] == before[k];
        assert before[k] in before;
      } else {
        assert all[k] == mid[k - |before|];
      }
    }
    var r := FirstNamed(all, name);
    assert r.Some? && r.value == idx;
  }

  /** The definitions of the modules are those before module `i`, then its own, then those after it. */
  lemma AllDefsSplit(ms: seq<INModule>, i: nat)
    requires i < |ms|
    ensures AllDefs(ms) == AllDefs(ms[..i]) + ms[i].defs + AllDefs(ms[i + 1..])
  {
    var rest := [ms[i]] + ms[i + 1..];
    assert ms == ms[..i] + rest;
    ConcatMapAppend(ms[..i], rest, DefsOf);
    assert rest[0] == ms[i] && rest[1..] == ms[i + 1..];
    assert ConcatMap(rest, DefsOf) == ms[i].defs + AllDefs(ms[i + 1..]);
  }

}
