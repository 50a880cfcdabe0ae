# A verified model of the VDMJ interpreter core

VDMJ is an interpreter for the VDM modelling language. This project models its
sequential, rule-driven parts in Dafny and proves properties about them.
It covers:

- **Values and literal patterns.** Token values compare and hash by the value
  they wrap. Boolean and character literal patterns match by equality. The
  proof-obligation identifier and integer patterns report fixed facts about
  the names they bind.
- **Evaluator constructs and their numbered aborts.** These are `card`,
  `dinter` (4151), `rng`, `mk_`, `def`, function instantiation (3034) and
  `while`.
- **The annotation registry** (`INAnnotation`). It holds the declared kinds
  and the registered instances. `reset` empties it, and `init` runs the
  per-kind initialisers and then the per-instance ones.
- **Module initialisation** (`INModuleList.initialize`). It runs up to five
  passes, skips modules that already passed, and stops early on a lone
  stack overflow. When it fails, it prefers an error other than 4034 ("not in
  scope"). Problems are exception objects compared by identity, so each
  error carries an identity and equal-looking errors raised separately stay
  apart. The same class's first-match lookups are modelled too.
- **Static analyses and traversals.**
  - The free-variable analysis used to order initialisation.
  - The leaf-collecting statement visitors of the parsed and interpreter
    trees, and the definition visitor of the type-checked tree.
  - The line-number expression finder built on the interpreter's statement
    visitor.
  - The default dispatch chain of the interpreter's definition visitor.

Some parts are functions of their inputs. These are the patterns, `card`,
`rng`, the free-variable rules, the visitors' per-case results and the lookups.
They are modelled as datatypes, functions and lemmas.

Other parts work by changing state step by step. These are modelled as methods
with loops, proved against the functions that specify them:

- the `dinter` fold,
- the `mk_` argument loop,
- the `def` scope,
- the instantiation parameter loop,
- the `while` loop,
- the registry's methods,
- the initialisation retry loop,
- the `find*` loops,
- the visitors' `addAll` loops.

The model takes several things as parameters instead of modelling them:

- Evaluating sub-expressions and sub-statements.
- Resolving types and building polymorphic function values.
- Constructing records.
- Initialising each module.
- Printing values.
- The numeric type the type checker gives a literal.

### Modules

| file | module | models |
|---|---|---|
| runtime.dfy | `Runtime` | values, dereferencing, coercions, exceptions and evaluation outcomes, and the execution `Context` class (shared infrastructure) |
| token_value.dfy | `TokenValues` | `TokenValue` |
| literal_patterns.dfy | `LiteralPatterns` | `INBooleanPattern`, `INCharacterPattern` |
| po_patterns.dfy | `POPatterns` | `POIdentifierPattern`, `POIntegerPattern` |
| set_expressions.dfy | `SetExpressions` | `card`, `dinter`, `rng` |
| mk_type.dfy | `MkTypeExpressions` | `INMkTypeExpression` |
| def_expr.dfy | `DefExpressions` | `INDefExpression` |
| func_instantiation.dfy | `FuncInstantiation` | `INFuncInstantiationExpression` |
| while_stmt.dfy | `WhileStatements` | `INWhileStatement` |
| annotations.dfy | `Annotations` | `INAnnotation` |
| module_list.dfy | `ModuleList` | `INModuleList` |
| free_variables.dfy | `FreeVariables` | `TCGetFreeVariablesVisitor` |
| statement_trees.dfy | `StatementTrees` | the statement tree shape shared by the two statement visitors, and its pre-order walk |
| in_statements.dfy | `INStatements` | `INLeafStatementVisitor` |
| in_definition_visitor.dfy | `INDefinitionVisitor` | `INDefinitionVisitor` |
| in_statement_finder.dfy | `INStatementFinder` | `INStatementExpressionFinder` |
| ast_statements.dfy | `ASTStatements` | `ASTLeafStatementVisitor` |
| tc_definitions.dfy | `TCDefinitions` | `TCLeafDefinitionVisitor` |

### Where the code does less or other than its evident intent

In each case below the model follows the code.

- **Stopping on a stack overflow.** One would expect initialisation to stop
  when a *pass's* problem set is a lone stack overflow. The code stops when a
  single *module's* own errors are a lone stack overflow
  (`INModuleList.java:174-178`). Problems that earlier modules reported in
  that pass are kept.
- **Which error is reported.** One would expect a non-4034 error to be
  preferred if *any pass* produced one. The code chooses only among the
  *last* pass's problems. It throws the last such problem it visits, in the
  set's iteration order (`INModuleList.java:198-212`).
- **Free variables of a variable.** One would expect a variable to count
  only if the global environment can see it. The code counts any variable
  that is not a global function, not a named rename, and not bound locally,
  whether or not it is global (`TCGetFreeVariablesVisitor.java:324-331`).
- **Free variables of quantifiers and comprehensions.** The code analyses
  the predicate of `exists`, `exists1`, `forall` and `iota`. For set,
  sequence and map comprehensions it evaluates the predicate but discards
  the result (`TCGetFreeVariablesVisitor.java:204-221`, `270-302`).
- **Token conversions.** One would expect a token's other conversions to
  delegate to the wrapped value. The code delegates them to the general
  conversion of the token itself (`TokenValue.java:77-88`).
- **Failing kind initialisers.** A failing hook initialiser does not
  propagate as it is. The code rethrows it as a new exception whose message
  starts with the kind's simple name (`INAnnotation.java:73-76`).

## Model

All source paths are under `FJ-VDMJ4/src/main/java/com/fujitsu/vdmj/`, written
out in full below.

| member | source | states |
|---|---|---|
| TokenValues.MkToken | FJ-VDMJ4/src/main/java/com/fujitsu/vdmj/values/TokenValue.java:37-40 | The wrapped value is stored dereferenced. Wrapping a reference gives the same token as wrapping what it refers to. |
| TokenValues.MkTokenDerefs | FJ-VDMJ4/src/main/java/com/fujitsu/vdmj/values/TokenValue.java:37-40 | The token of a value and the token of its dereference are identical and equal. |
| TokenValues.EqualsIsWrappedEquality | FJ-VDMJ4/src/main/java/com/fujitsu/vdmj/values/TokenValue.java:48-63 | A token equals a value iff that value dereferences to a token with the same wrapped value. References around the other value make no difference. |
| TokenValues.NotAValueNeverEqual | FJ-VDMJ4/src/main/java/com/fujitsu/vdmj/values/TokenValue.java:48-63 | An object that is not a value is never equal to a token. |
| TokenValues.EqualsIsEquivalence | FJ-VDMJ4/src/main/java/com/fujitsu/vdmj/values/TokenValue.java:48-63 | Token equality is reflexive, symmetric and transitive. |
| TokenValues.EqualTokensHashEqually | FJ-VDMJ4/src/main/java/com/fujitsu/vdmj/values/TokenValue.java:65-69 | Equal tokens have equal hashes, for any hash of the wrapped values. |
| TokenValues.ToString | FJ-VDMJ4/src/main/java/com/fujitsu/vdmj/values/TokenValue.java:42-46 | The printed form is `mk_token(`, the printed wrapped value, then `)`, with the length to match. |
| TokenValues.Kind | FJ-VDMJ4/src/main/java/com/fujitsu/vdmj/values/TokenValue.java:71-75 | The diagnostic tag has the same `mk_token(...)` shape as the printed form. |
| TokenValues.ConvertValueTo | FJ-VDMJ4/src/main/java/com/fujitsu/vdmj/values/TokenValue.java:77-88 | Conversion to the token type gives the token itself. Every other target type goes to the general conversion. |
| TokenValues.ConversionToTokenIsIdentity | FJ-VDMJ4/src/main/java/com/fujitsu/vdmj/values/TokenValue.java:77-88 | Conversion to the token type always succeeds, and the result is equal to the original token. |
| TokenValues.Clone | FJ-VDMJ4/src/main/java/com/fujitsu/vdmj/values/TokenValue.java:90-94 | A clone wraps the same value. |
| TokenValues.CloneEqualsOriginal | FJ-VDMJ4/src/main/java/com/fujitsu/vdmj/values/TokenValue.java:90-94 | A clone and its original are equal both ways and hash the same. |
| LiteralPatterns.MatchBoolean | FJ-VDMJ4/src/main/java/com/fujitsu/vdmj/in/patterns/INBooleanPattern.java:55-75 | Success yields exactly one empty binding list. A boolean of the other truth value fails with 4106. A value that cannot be coerced fails as a pattern failure carrying the coercion error. |
| LiteralPatterns.BooleanMatchIffEqual | FJ-VDMJ4/src/main/java/com/fujitsu/vdmj/in/patterns/INBooleanPattern.java:55-81 | The pattern matches iff the value dereferences to its literal. A non-boolean fails as a pattern failure. No name is bound. A matched value is of the pattern's possible type, `bool`. |
| LiteralPatterns.MatchCharacter | FJ-VDMJ4/src/main/java/com/fujitsu/vdmj/in/patterns/INCharacterPattern.java:55-75 | Success yields exactly one empty binding list. Another character fails with 4107. A value that cannot be coerced fails as a pattern failure carrying the coercion error. |
| LiteralPatterns.CharacterMatchIffEqual | FJ-VDMJ4/src/main/java/com/fujitsu/vdmj/in/patterns/INCharacterPattern.java:55-81 | The pattern matches iff the value dereferences to the character whose code point is the literal's. A non-character fails as a pattern failure. No name is bound. A matched value is of the possible type, `char`. |
| LiteralPatterns.CharacterOutOfRangeNeverMatches | FJ-VDMJ4/src/main/java/com/fujitsu/vdmj/in/patterns/INCharacterPattern.java:63-66 | A literal whose code point is negative matches no value. |
| POPatterns.IdentifierPatternConsistent | FJ-VDMJ4/src/main/java/com/fujitsu/vdmj/po/patterns/POIdentifierPattern.java:46-96 | At any type there is exactly one definition, of the pattern's name, at that type and location. The defined names equal the variable names, which are `[name]`. The matching expression is an unresolved variable of that name. The possible type is unknown. The pattern always matches, is not simple, and has any length. |
| POPatterns.IntegerPatternDependsOnToken | FJ-VDMJ4/src/main/java/com/fujitsu/vdmj/po/patterns/POIntegerPattern.java:44-66 | No name is defined at any type. The possible type is the numeric type of the literal's value, so two patterns over the same value agree on it. The matching expression is the integer literal of the same token. The printed form is the token's printed form. |
| SetExpressions.EvalCardinality | FJ-VDMJ4/src/main/java/com/fujitsu/vdmj/in/expressions/INCardinalityExpression.java:49-71 | A normal result is a natural number. |
| SetExpressions.CardinalityOutcomes | FJ-VDMJ4/src/main/java/com/fujitsu/vdmj/in/expressions/INCardinalityExpression.java:56-70 | A set operand gives its element count. Any other value aborts with the coercion error. A located exception from the operand propagates unchanged. Any other exception aborts with 4065. |
| SetExpressions.CardinalityThroughReference | FJ-VDMJ4/src/main/java/com/fujitsu/vdmj/in/expressions/INCardinalityExpression.java:56 | `card` looks through references: a reference to any value gives what the value itself gives, a count or the same abort. |
| SetExpressions.Intersection | FJ-VDMJ4/src/main/java/com/fujitsu/vdmj/in/expressions/INDistIntersectExpression.java:62-76 | The intersection of a non-empty set of sets lies within every member. |
| SetExpressions.IntersectionOfOne | FJ-VDMJ4/src/main/java/com/fujitsu/vdmj/in/expressions/INDistIntersectExpression.java:66-69 | The intersection of a singleton is a copy of its only member. |
| SetExpressions.IntersectionOfInsert | FJ-VDMJ4/src/main/java/com/fujitsu/vdmj/in/expressions/INDistIntersectExpression.java:70-73 | Narrowing by one more member intersects the result so far with that member. |
| SetExpressions.EvalDistIntersect | FJ-VDMJ4/src/main/java/com/fujitsu/vdmj/in/expressions/INDistIntersectExpression.java:49-82 | An empty outer set aborts with 4151. A set of sets gives the intersection of all its members. A non-set operand or member aborts with its coercion error. The operand's exception propagates. |
| SetExpressions.IntersectionProperties | FJ-VDMJ4/src/main/java/com/fujitsu/vdmj/in/expressions/INDistIntersectExpression.java:62-76 | The result is a subset of every member and equals the only member of a singleton. An element is in it iff it is in every member. |
| SetExpressions.EvalMapRange | FJ-VDMJ4/src/main/java/com/fujitsu/vdmj/in/expressions/INMapRangeExpression.java:49-65 | A map operand gives a set. A non-map aborts with its coercion error. The operand's exception propagates. |
| SetExpressions.MapRangeMembership | FJ-VDMJ4/src/main/java/com/fujitsu/vdmj/in/expressions/INMapRangeExpression.java:56-59 | A value is in `rng m` iff some key of `m` maps to it. |
| SetExpressions.RangeNoLargerThanMap | FJ-VDMJ4/src/main/java/com/fujitsu/vdmj/in/expressions/INMapRangeExpression.java:57-58 | A map has no more distinct values than entries. |
| SetExpressions.MapRangeSize | FJ-VDMJ4/src/main/java/com/fujitsu/vdmj/in/expressions/INMapRangeExpression.java:56-59 | `rng` of a map is no larger than the map, and the empty map gives the empty set. |
| MkTypeExpressions.EvalArgs | FJ-VDMJ4/src/main/java/com/fujitsu/vdmj/in/expressions/INMkTypeExpression.java:60-65 | When every argument evaluates, there is one value per argument. |
| MkTypeExpressions.Construct | FJ-VDMJ4/src/main/java/com/fujitsu/vdmj/in/expressions/INMkTypeExpression.java:67-74 | A record is returned, or the construction's value error becomes an abort. |
| MkTypeExpressions.EvalMkType | FJ-VDMJ4/src/main/java/com/fujitsu/vdmj/in/expressions/INMkTypeExpression.java:56-75 | The arguments are evaluated in order, each at most once. Construction happens only after all of them, and gets their values in order. Otherwise the first escaping exception propagates and no later argument is evaluated. |
| MkTypeExpressions.EvalArgsPrefixThrown | FJ-VDMJ4/src/main/java/com/fujitsu/vdmj/in/expressions/INMkTypeExpression.java:62-65 | Once an argument throws, the rest of the list cannot change the outcome. |
| MkTypeExpressions.EvalArgsValues | FJ-VDMJ4/src/main/java/com/fujitsu/vdmj/in/expressions/INMkTypeExpression.java:60-69 | The value list exists iff every argument evaluates normally. Its i-th value is the i-th argument's value. |
| MkTypeExpressions.EvalArgsFirstThrow | FJ-VDMJ4/src/main/java/com/fujitsu/vdmj/in/expressions/INMkTypeExpression.java:62-65 | An escaping exception is that of the first argument that throws. Every argument before it evaluated normally. |
| MkTypeExpressions.FindInArgs | FJ-VDMJ4/src/main/java/com/fujitsu/vdmj/in/expressions/INMkTypeExpression.java:83 | The result is the first argument's non-empty answer. It is empty iff no argument finds anything. |
| MkTypeExpressions.FindExpression | FJ-VDMJ4/src/main/java/com/fujitsu/vdmj/in/expressions/INMkTypeExpression.java:77-84 | The expression itself when it starts on the line. Otherwise the first argument's answer. Empty iff neither finds anything. |
| MkTypeExpressions.GetValues | FJ-VDMJ4/src/main/java/com/fujitsu/vdmj/in/expressions/INMkTypeExpression.java:86-90 | Every value comes from some argument. |
| MkTypeExpressions.GetOldNames | FJ-VDMJ4/src/main/java/com/fujitsu/vdmj/in/expressions/INMkTypeExpression.java:92-96 | A name is an old name iff it is an old name of some argument. |
| MkTypeExpressions.ContributionsInArgumentOrder | FJ-VDMJ4/src/main/java/com/fujitsu/vdmj/in/expressions/INMkTypeExpression.java:86-96 | Values and old names come in argument order. Each argument's contribution lies between those of the arguments before it and those after it. |
| MkTypeExpressions.ValuesComeFromArgs | FJ-VDMJ4/src/main/java/com/fujitsu/vdmj/in/expressions/INMkTypeExpression.java:86-96 | The values and old names do not depend on the record type or the line. Every argument's values are present. |
| DefExpressions.DefScope | FJ-VDMJ4/src/main/java/com/fujitsu/vdmj/in/expressions/INDefExpression.java:55-58 | No definitions bind nothing. |
| DefExpressions.EvalDef | FJ-VDMJ4/src/main/java/com/fujitsu/vdmj/in/expressions/INDefExpression.java:48-61 | A fresh child context titled "def expression" has the caller's context as parent. It receives each definition's bindings in turn. The body is evaluated in the whole chain. The caller's contexts are unchanged. The first escaping exception propagates. |
| DefExpressions.DefScopePrefixThrown | FJ-VDMJ4/src/main/java/com/fujitsu/vdmj/in/expressions/INDefExpression.java:55-58 | Once a definition throws, the later definitions cannot change the outcome. |
| DefExpressions.DefScopeGrows | FJ-VDMJ4/src/main/java/com/fujitsu/vdmj/in/expressions/INDefExpression.java:55-58 | Bindings are only added. When the whole `def` succeeds, every prefix succeeded and bound a subset of its names. |
| DefExpressions.EarlierBindingsVisible | FJ-VDMJ4/src/main/java/com/fujitsu/vdmj/in/expressions/INDefExpression.java:55-60 | A name bound by an earlier definition is visible to every later definition and to the body. |
| DefExpressions.LocalBindingsHideOuter | FJ-VDMJ4/src/main/java/com/fujitsu/vdmj/in/expressions/INDefExpression.java:53-60 | In the body's scope a locally bound name hides the outer binding. Any other outer name keeps its value. |
| FuncInstantiation.ResolveType | FJ-VDMJ4/src/main/java/com/fujitsu/vdmj/in/expressions/INFuncInstantiationExpression.java:98-102 | Only a type whose text mentions `@` is resolved. Any other is kept as it is. |
| FuncInstantiation.ParamNames | FJ-VDMJ4/src/main/java/com/fujitsu/vdmj/in/expressions/INFuncInstantiationExpression.java:79-88 | The type parameter names come from the explicit definition when there is one, else from the implicit one. |
| FuncInstantiation.ArgTypes | FJ-VDMJ4/src/main/java/com/fujitsu/vdmj/in/expressions/INFuncInstantiationExpression.java:91-106 | Collected argument types have the actual types' length. |
| FuncInstantiation.ArgTypesShape | FJ-VDMJ4/src/main/java/com/fujitsu/vdmj/in/expressions/INFuncInstantiationExpression.java:93-106 | Collection succeeds iff there are enough parameter names and every needed resolution succeeds. The i-th collected type is the i-th actual type, resolved only if it mentions `@`. |
| FuncInstantiation.ArgTypesPrefixFails | FJ-VDMJ4/src/main/java/com/fujitsu/vdmj/in/expressions/INFuncInstantiationExpression.java:93-106 | Once one type fails, the later types cannot change the failure. |
| FuncInstantiation.ParamBindings | FJ-VDMJ4/src/main/java/com/fujitsu/vdmj/in/expressions/INFuncInstantiationExpression.java:105 | The i-th name is paired with the i-th argument type. |
| FuncInstantiation.ParamContextBindsIth | FJ-VDMJ4/src/main/java/com/fujitsu/vdmj/in/expressions/INFuncInstantiationExpression.java:90-106 | With distinct parameter names, the parameter context binds exactly the first \|types\| names. The i-th is bound to the i-th argument type. |
| FuncInstantiation.EvalFuncInstantiation | FJ-VDMJ4/src/main/java/com/fujitsu/vdmj/in/expressions/INFuncInstantiationExpression.java:65-127 | An instantiated function aborts with 3034 and its name. Otherwise a fresh parentless context binds the parameters. The polymorphic value for the argument types is returned with the original `self` and marked instantiated. Coercion, resolution and construction failures abort. A normal result is always an instantiated function value carrying the original `self`. |
| FuncInstantiation.BindParams | FJ-VDMJ4/src/main/java/com/fujitsu/vdmj/in/expressions/INFuncInstantiationExpression.java:90-106 | The loop's outcome is `ArgTypes`. The context it builds is fresh and has no parent. On success the context binds the i-th type parameter to the i-th resolved actual type. |
| FuncInstantiation.FindExpression | FJ-VDMJ4/src/main/java/com/fujitsu/vdmj/in/expressions/INFuncInstantiationExpression.java:129-136 | The expression itself when it starts on the line. Otherwise whatever the function expression finds. Empty iff neither finds anything. |
| WhileStatements.Loop | FJ-VDMJ4/src/main/java/com/fujitsu/vdmj/in/statements/INWhileStatement.java:57-74 | Without fuel, nothing has run. |
| WhileStatements.EvalWhile | FJ-VDMJ4/src/main/java/com/fujitsu/vdmj/in/statements/INWhileStatement.java:52-75 | One suspension check on entry, then the loop. The result, final state and events are the loop's. |
| WhileStatements.FalseOnEntry | FJ-VDMJ4/src/main/java/com/fujitsu/vdmj/in/statements/INWhileStatement.java:59 | A condition false on entry gives void, and the body never runs. |
| WhileStatements.FirstNonVoidReturned | FJ-VDMJ4/src/main/java/com/fujitsu/vdmj/in/statements/INWhileStatement.java:61-66 | A non-void body result is returned unchanged, and nothing runs after it. |
| WhileStatements.VoidBodyContinues | FJ-VDMJ4/src/main/java/com/fujitsu/vdmj/in/statements/INWhileStatement.java:59-67 | A void body result leads to another condition evaluation from the body's final state. |
| WhileStatements.ConditionCoercionAborts | FJ-VDMJ4/src/main/java/com/fujitsu/vdmj/in/statements/INWhileStatement.java:69-72 | A non-boolean condition aborts with its coercion error, and the body does not run. |
| WhileStatements.NoSuspendInLoop | FJ-VDMJ4/src/main/java/com/fujitsu/vdmj/in/statements/INWhileStatement.java:55-67 | The loop makes no suspension check of its own. It alternates condition and body, starting with the condition. |
| WhileStatements.NormalEndIsVoidOrBodyValue | FJ-VDMJ4/src/main/java/com/fujitsu/vdmj/in/statements/INWhileStatement.java:59-74 | Ending on a condition yields void. A non-void normal result always comes last, from the body. |
| WhileStatements.MoreFuelSameRun | FJ-VDMJ4/src/main/java/com/fujitsu/vdmj/in/statements/INWhileStatement.java:59-67 | Once the loop has finished, more fuel changes nothing. The fuel only bounds the model. |
| Annotations.Registry.constructor | FJ-VDMJ4/src/main/java/com/fujitsu/vdmj/in/annotations/INAnnotation.java:58-62 | The registry starts with no kinds and no instances. |
| Annotations.Registry.Register | FJ-VDMJ4/src/main/java/com/fujitsu/vdmj/in/annotations/INAnnotation.java:49-56 | Constructing an annotation adds its kind to the declared kinds and appends it to the instances. Every instance's kind stays declared. |
| Annotations.Registry.Reset | FJ-VDMJ4/src/main/java/com/fujitsu/vdmj/in/annotations/INAnnotation.java:58-62 | No kind is declared and there are no instances. |
| Annotations.Registry.Init | FJ-VDMJ4/src/main/java/com/fujitsu/vdmj/in/annotations/INAnnotation.java:64-83 | Each declared kind's initialiser runs once, in an order that enumerates the declared set. Then each instance's runs. In a valid registry every instance's kind is among the kinds initialised first. The outcome and log are those of `InitRun` in that order. |
| Annotations.RunClassInits | FJ-VDMJ4/src/main/java/com/fujitsu/vdmj/in/annotations/INAnnotation.java:66-77 | The loop over the declared kinds visits each kind exactly once, in some enumeration of the set. Its outcome and log are `ClassInits` in that order. |
| Annotations.RunInstanceInits | FJ-VDMJ4/src/main/java/com/fujitsu/vdmj/in/annotations/INAnnotation.java:79-82 | The loop over the instances computes exactly `InstanceInits`: registration order, stopping at the first that throws. |
| Annotations.ClassInitFailure | FJ-VDMJ4/src/main/java/com/fujitsu/vdmj/in/annotations/INAnnotation.java:73-76 | A failing kind initialiser is reported by an exception whose message starts with the kind's simple name and a colon. |
| Annotations.ClassInits | FJ-VDMJ4/src/main/java/com/fujitsu/vdmj/in/annotations/INAnnotation.java:66-77 | The kind initialisers run in visiting order, stopping at a failure. All of them run on success. |
| Annotations.ClassInitsVerdict | FJ-VDMJ4/src/main/java/com/fujitsu/vdmj/in/annotations/INAnnotation.java:66-77 | They succeed iff every kind's initialiser does. Otherwise they stop at the first failing kind and report it by name. |
| Annotations.InstanceInits | FJ-VDMJ4/src/main/java/com/fujitsu/vdmj/in/annotations/INAnnotation.java:79-82 | The instance initialisers run in registration order. They succeed iff every one does. Otherwise they stop at the first that throws and propagate its exception. |
| Annotations.ClassInitsStopsAt | FJ-VDMJ4/src/main/java/com/fujitsu/vdmj/in/annotations/INAnnotation.java:66-77 | Once every earlier kind has succeeded, the first failing kind ends the loop. No later kind runs, whatever follows, and the failure names that kind. |
| Annotations.InstanceInitsStopsAt | FJ-VDMJ4/src/main/java/com/fujitsu/vdmj/in/annotations/INAnnotation.java:79-82 | After a run of successful instance initialisers, the first that throws ends the loop. Its exception is propagated, and exactly the initialisers up to it have run. |
| Annotations.ClassesBeforeInstances | FJ-VDMJ4/src/main/java/com/fujitsu/vdmj/in/annotations/INAnnotation.java:64-83 | No kind initialiser runs after an instance initialiser. Each kind's runs at most once. Instances run in increasing registration order. |
| Annotations.SuccessfulInitRunsAll | FJ-VDMJ4/src/main/java/com/fujitsu/vdmj/in/annotations/INAnnotation.java:64-83 | A successful `init` ran every kind's initialiser, then every instance's, each exactly once. |
| Annotations.ClassFailureStopsInit | FJ-VDMJ4/src/main/java/com/fujitsu/vdmj/in/annotations/INAnnotation.java:66-77 | A failing kind initialiser makes `init` fail, naming a failing kind. No instance initialiser runs. |
| Annotations.DefaultInitSucceeds | FJ-VDMJ4/src/main/java/com/fujitsu/vdmj/in/annotations/INAnnotation.java:85-93 | With the default initialisers, `init` succeeds and runs one initialiser per kind and one per instance. |
| Annotations.ToString | FJ-VDMJ4/src/main/java/com/fujitsu/vdmj/in/annotations/INAnnotation.java:95-99 | The printed form is `@name`, followed by `(args)` iff there are arguments. |
| ModuleList.Initialize | FJ-VDMJ4/src/main/java/com/fujitsu/vdmj/in/modules/INModuleList.java:140-216 | The final state is that of the passes, starting with no module passed and five retries. It throws iff the last pass had problems, and then throws one of them, chosen as `Chosen` does. The exception flag is restored only on success and stays off on failure. |
| ModuleList.Run | FJ-VDMJ4/src/main/java/com/fujitsu/vdmj/in/modules/INModuleList.java:150-196 | At least one pass is made. `AtMostRetriesPasses` bounds the passes, and `ProblemsContinue` and `PersistentRunsAll` state when another pass follows. |
| ModuleList.ProblemsContinue | FJ-VDMJ4/src/main/java/com/fujitsu/vdmj/in/modules/INModuleList.java:196 | A pass with problems and no stack overflow is followed by another pass while the decremented counter is positive. The outcome is that of the later passes, with one more pass counted. |
| ModuleList.PersistentRunsAll | FJ-VDMJ4/src/main/java/com/fujitsu/vdmj/in/modules/INModuleList.java:146-196 | Modules that keep failing without a stack overflow are attempted in exactly `retries` passes, five from `initialize`. |
| ModuleList.AtMostRetriesPasses | FJ-VDMJ4/src/main/java/com/fujitsu/vdmj/in/modules/INModuleList.java:146-196 | At most `retries` passes (five) are made. With one pass, the problems reported are that pass's. |
| ModuleList.PassSkipsPassed | FJ-VDMJ4/src/main/java/com/fujitsu/vdmj/in/modules/INModuleList.java:154-183 | A module whose name has passed is never attempted again. Names and problems only grow within a pass. Every newly passed name belongs to a module attempted in that pass. |
| ModuleList.OverflowStops | FJ-VDMJ4/src/main/java/com/fujitsu/vdmj/in/modules/INModuleList.java:174-178 | A pass cut short by a module's lone stack overflow is the last pass, and its problems are reported. |
| ModuleList.CleanPassEnds | FJ-VDMJ4/src/main/java/com/fujitsu/vdmj/in/modules/INModuleList.java:196 | A pass without problems ends initialisation, with no problems. |
| ModuleList.AllPassFirstTime | FJ-VDMJ4/src/main/java/com/fujitsu/vdmj/in/modules/INModuleList.java:154-183 | When every module initialises cleanly, the pass adds no problems and every module's name passes. |
| ModuleList.ChosenPrefersOtherErrors | FJ-VDMJ4/src/main/java/com/fujitsu/vdmj/in/modules/INModuleList.java:198-212 | The error thrown is one of the problems. It is 4034 only when every problem is. Otherwise it is the last non-4034 problem visited. |
| ModuleList.ChosenSnoc | FJ-VDMJ4/src/main/java/com/fujitsu/vdmj/in/modules/INModuleList.java:200-210 | Visiting one more problem replaces the choice iff that problem is not 4034, or it is the first visited. |
| ModuleList.ChosenSingleton | FJ-VDMJ4/src/main/java/com/fujitsu/vdmj/in/modules/INModuleList.java:200 | A lone problem is the one thrown. |
| ModuleList.LastOtherIsLast | FJ-VDMJ4/src/main/java/com/fujitsu/vdmj/in/modules/INModuleList.java:202-210 | The choice is the last non-4034 element, or the fallback when every element is 4034. |
| ModuleList.Enumerate | FJ-VDMJ4/src/main/java/com/fujitsu/vdmj/in/modules/INModuleList.java:202 | The iteration order of the problem set visits each problem exactly once. |
| ModuleList.GetSourceFiles | FJ-VDMJ4/src/main/java/com/fujitsu/vdmj/in/modules/INModuleList.java:67-77 | A file is in the result iff it is a source file of some module. |
| ModuleList.FindModule | FJ-VDMJ4/src/main/java/com/fujitsu/vdmj/in/modules/INModuleList.java:79-90 | The result is the first module with the name, or none iff no module has it. |
| ModuleList.FindFirst | FJ-VDMJ4/src/main/java/com/fujitsu/vdmj/in/modules/INModuleList.java:92-120 | `findStatement` and `findExpression` return the first module's non-empty answer, or none iff every module answers none. |
| ModuleList.FindTraceDefinition | FJ-VDMJ4/src/main/java/com/fujitsu/vdmj/in/modules/INModuleList.java:218-239 | Module by module, the search stops at the first definition with the name. It answers that definition iff it is a trace definition. |
| ModuleList.FirstNamed | FJ-VDMJ4/src/main/java/com/fujitsu/vdmj/in/modules/INModuleList.java:220-225 | The first definition with the name, or none iff no definition has it. |
| ModuleList.TraceLookup | FJ-VDMJ4/src/main/java/com/fujitsu/vdmj/in/modules/INModuleList.java:226-233 | An answer is a trace definition with the name, taken from the list. |
| ModuleList.FoundAt | FJ-VDMJ4/src/main/java/com/fujitsu/vdmj/in/modules/INModuleList.java:220-225 | A name first found at definition j of module i is the first among all the definitions, module by module. |
| FreeVariables.LetDefFreeVariables | FJ-VDMJ4/src/main/java/com/fujitsu/vdmj/tc/expressions/TCGetFreeVariablesVisitor.java:181-202 | The loop that widens the local names definition by definition computes exactly the analysis's answer for `let` and `def`. |
| FreeVariables.FreeVariablesBound | FJ-VDMJ4/src/main/java/com/fujitsu/vdmj/tc/expressions/TCGetFreeVariablesVisitor.java:58-338 | A free variable is one of four things: a variable of the expression not bound locally, a global it calls, a type name written in it, or the name a global rename stands for. |
| FreeVariables.ShadowedNotFree | FJ-VDMJ4/src/main/java/com/fujitsu/vdmj/tc/expressions/TCGetFreeVariablesVisitor.java:324-331 | A locally bound name that is not global, not a rename target and not a type name is never free. |
| FreeVariables.MoreLocalsFewerFree | FJ-VDMJ4/src/main/java/com/fujitsu/vdmj/tc/expressions/TCGetFreeVariablesVisitor.java:58-338 | Adding local names never adds free variables. |
| FreeVariables.FunctionDefinitionsIgnored | FJ-VDMJ4/src/main/java/com/fujitsu/vdmj/tc/expressions/TCGetFreeVariablesVisitor.java:189-192 | A `let` of explicit function definitions only has exactly its body's free variables. |
| FreeVariables.SingleDefinitionScope | FJ-VDMJ4/src/main/java/com/fujitsu/vdmj/tc/expressions/TCGetFreeVariablesVisitor.java:193-200 | One definition's names are local both to its own expression and to the body. |
| FreeVariables.VariableFreeNames | FJ-VDMJ4/src/main/java/com/fujitsu/vdmj/tc/expressions/TCGetFreeVariablesVisitor.java:304-332 | A variable has at most one free name. It has none iff it is a global function, or it is bound locally and is not a named rename. A non-function named rename gives the renamed name. |
| FreeVariables.ConditionalPartsIgnored | FJ-VDMJ4/src/main/java/com/fujitsu/vdmj/tc/expressions/TCGetFreeVariablesVisitor.java:89-302 | Replacing these parts leaves the free variables unchanged: the right operand of a boolean operator, the branches of `if`, the alternatives of `cases`, a lambda's body, and a comprehension's element and predicate. |
| FreeVariables.TypeAndFunctionDependencies | FJ-VDMJ4/src/main/java/com/fujitsu/vdmj/tc/expressions/TCGetFreeVariablesVisitor.java:65-87 | A `mk_` always depends on its record type. A call of a function-typed global variable depends on that function. Every other free name comes from an argument. |
| FreeVariables.Children | FJ-VDMJ4/src/main/java/com/fujitsu/vdmj/tc/expressions/TCGetFreeVariablesVisitor.java:58-338 | Every part the analysis may visit is a strictly smaller expression. |
| INStatements.Apply | FJ-VDMJ4/src/main/java/com/fujitsu/vdmj/in/statements/INLeafStatementVisitor.java:572-575 | Visiting throws iff `allNodes` is set, `caseNonLeafNode` is not overridden, and the statement has a case. The message is the fixed one. |
| INStatements.CollectIsPreOrderFold | FJ-VDMJ4/src/main/java/com/fujitsu/vdmj/in/statements/INLeafStatementVisitor.java:53-568 | The result concatenates every statement node's own contribution, in pre-order. |
| INStatements.CollectIsLocalThenChildren | FJ-VDMJ4/src/main/java/com/fujitsu/vdmj/in/statements/INLeafStatementVisitor.java:53-568 | Each case is the node's own contribution followed by its sub-statements' results, in order. |
| INStatements.NodesOnlyWithoutSubVisitors | FJ-VDMJ4/src/main/java/com/fujitsu/vdmj/in/statements/INLeafStatementVisitor.java:511-524 | Take a visitor with no expression or definition visitor that visits every node. Its result is each pre-order node's node-level result, so sub-statements are still visited. |
| INStatements.LocalIsNodeResult | FJ-VDMJ4/src/main/java/com/fujitsu/vdmj/in/statements/INLeafStatementVisitor.java:56 | Without sub-visitors, a node contributes its `caseNonLeafNode` result, or `caseStatement` for a kind without a case. |
| INStatements.BlockOrder | FJ-VDMJ4/src/main/java/com/fujitsu/vdmj/in/statements/INLeafStatementVisitor.java:108-127 | A block gives its node-level result, then its assignment definitions' results, then its statements' results in order. |
| INStatements.IfOrder | FJ-VDMJ4/src/main/java/com/fujitsu/vdmj/in/statements/INLeafStatementVisitor.java:298-324 | An `if` gives its node-level result, condition, then-branch, each else-if, and the else-branch if present, in that order. |
| INStatements.NodeOnlyStatements | FJ-VDMJ4/src/main/java/com/fujitsu/vdmj/in/statements/INLeafStatementVisitor.java:409-412 | Skip, error and subclass-responsibility statements give only the node-level result. |
| INStatements.TixeOrder | FJ-VDMJ4/src/main/java/com/fujitsu/vdmj/in/statements/INLeafStatementVisitor.java:488-499 | A `tixe` gives its node-level result, then its trap alternatives, then its body. |
| INStatements.BindContribution | FJ-VDMJ4/src/main/java/com/fujitsu/vdmj/in/statements/INLeafStatementVisitor.java:526-568 | A set or sequence bind gives its expression's results. Any other bind gives nothing. |
| INDefinitionVisitor.Parent | FJ-VDMJ4/src/main/java/com/fujitsu/vdmj/in/definitions/INDefinitionVisitor.java:33-163 | A default only delegates to the class case or the assignment case. |
| INDefinitionVisitor.Chain | FJ-VDMJ4/src/main/java/com/fujitsu/vdmj/in/definitions/INDefinitionVisitor.java:33-163 | A kind's default chain has one or two cases. It starts at the kind, follows `Parent`, and ends at a case that goes to `caseDefinition`. |
| INDefinitionVisitor.AnsweringIsFirstOnChain | FJ-VDMJ4/src/main/java/com/fujitsu/vdmj/in/definitions/INDefinitionVisitor.java:33-163 | The case that answers is the first overridden case on the chain. There is none iff no case on the chain is overridden. |
| INDefinitionVisitor.ChainsAreShort | FJ-VDMJ4/src/main/java/com/fujitsu/vdmj/in/definitions/INDefinitionVisitor.java:33-163 | Every default chain reaches `caseDefinition` within two steps. |
| INDefinitionVisitor.DefaultFallbacks | FJ-VDMJ4/src/main/java/com/fujitsu/vdmj/in/definitions/INDefinitionVisitor.java:35-143 | An instance variable falls back to the assignment case. BUS, CPU and system classes fall back to the class case. Every other kind falls back to `caseDefinition`. |
| INDefinitionVisitor.NoOverridesMeansCaseDefinition | FJ-VDMJ4/src/main/java/com/fujitsu/vdmj/in/definitions/INDefinitionVisitor.java:33-163 | A visitor that overrides nothing answers every definition with `caseDefinition`. |
| INStatementFinder.FindIsFilteredCandidates | FJ-VDMJ4/src/main/java/com/fujitsu/vdmj/in/statements/INStatementExpressionFinder.java:40-136 | The result is the expressions the walk considers that start on the line, in walk order. Every result starts on the line, and every considered expression on the line is a result. |
| INStatementFinder.LocalOnLine | FJ-VDMJ4/src/main/java/com/fujitsu/vdmj/in/statements/INStatementExpressionFinder.java:51-93 | Per node, the finder keeps exactly the considered expressions that start on the line. A statement node itself contributes nothing. |
| INStatementFinder.LocalAllOnLine | FJ-VDMJ4/src/main/java/com/fujitsu/vdmj/in/statements/INStatementExpressionFinder.java:51-93 | The same holds for any list of nodes. |
| INStatementFinder.OnLineMembers | FJ-VDMJ4/src/main/java/com/fujitsu/vdmj/in/statements/INStatementExpressionFinder.java:75-91 | The line filter keeps exactly the expressions that start on the line. |
| INStatementFinder.DefinitionContribution | FJ-VDMJ4/src/main/java/com/fujitsu/vdmj/in/statements/INStatementExpressionFinder.java:100-136 | Assignment, instance-variable and value definitions give their top expression if it starts on the line. Every other kind gives nothing. |
| INStatementFinder.AssignmentExpressionsConsidered | FJ-VDMJ4/src/main/java/com/fujitsu/vdmj/in/statements/INStatementExpressionFinder.java:64-93 | In an assignment, every expression node at any depth is considered, and the result includes those on the line. |
| INStatementFinder.DefinitionTopOnly | FJ-VDMJ4/src/main/java/com/fujitsu/vdmj/in/statements/INStatementExpressionFinder.java:109-136 | For a definition, only its top expression is checked against the line, not the expressions inside it. |
| ASTStatements.Leaf | FJ-VDMJ4/src/main/java/com/fujitsu/vdmj/ast/statements/ASTLeafStatementVisitor.java:45-510 | The parsed-tree visitor corresponds to an interpreter-stage visitor that does not visit every node and has the same sub-visitors. |
| ASTStatements.CaseBlock | FJ-VDMJ4/src/main/java/com/fujitsu/vdmj/ast/statements/ASTLeafStatementVisitor.java:74-94 | The block loops compute the block's result: definitions first, then statements. |
| ASTStatements.AgreesWithInterpreter | FJ-VDMJ4/src/main/java/com/fujitsu/vdmj/ast/statements/ASTLeafStatementVisitor.java:45-510 | Away from annotations, the parsed-tree visitor gives exactly what the interpreter-stage visitor gives: the same parts in the same order. |
| ASTStatements.ParsedIsPreOrderFold | FJ-VDMJ4/src/main/java/com/fujitsu/vdmj/ast/statements/ASTLeafStatementVisitor.java:45-510 | The result concatenates every statement node's own contribution, in pre-order. |
| ASTStatements.AssignmentResult | FJ-VDMJ4/src/main/java/com/fujitsu/vdmj/ast/statements/ASTLeafStatementVisitor.java:54-59 | An assignment gives exactly its expression's results, or nothing without an expression visitor. |
| ASTStatements.EmptyStatements | FJ-VDMJ4/src/main/java/com/fujitsu/vdmj/ast/statements/ASTLeafStatementVisitor.java:365-369 | Skip, error and subclass-responsibility statements give nothing. |
| ASTStatements.NoExpressionNoResults | FJ-VDMJ4/src/main/java/com/fujitsu/vdmj/ast/statements/ASTLeafStatementVisitor.java:194-206 | `return` and `exit` without an expression give nothing. |
| ASTStatements.WhileOrder | FJ-VDMJ4/src/main/java/com/fujitsu/vdmj/ast/statements/ASTLeafStatementVisitor.java:453-466 | A `while` gives its condition's results, then its body's. |
| ASTStatements.LetBeStOrder | FJ-VDMJ4/src/main/java/com/fujitsu/vdmj/ast/statements/ASTLeafStatementVisitor.java:288-301 | A let-be-st gives its bind's set or sequence, then the such-that expression if present, then its body. Without an expression visitor, only the body. |
| ASTStatements.TrapOrder | FJ-VDMJ4/src/main/java/com/fujitsu/vdmj/ast/statements/ASTLeafStatementVisitor.java:444-451 | A trap gives its bind's set or sequence, then its `with` statement, then its body. |
| TCDefinitions.CaseClass | FJ-VDMJ4/src/main/java/com/fujitsu/vdmj/tc/definitions/TCLeafDefinitionVisitor.java:62-73 | The member loop computes the class's result: each member's results appended in order. |
| TCDefinitions.ClassConcatenation | FJ-VDMJ4/src/main/java/com/fujitsu/vdmj/tc/definitions/TCLeafDefinitionVisitor.java:62-73 | A class split anywhere gives its first part's results followed by its second part's. |
| TCDefinitions.Deref | FJ-VDMJ4/src/main/java/com/fujitsu/vdmj/tc/definitions/TCLeafDefinitionVisitor.java:273-277 | A chain of qualifications ends at a definition that is not qualified and lies inside the original. |
| TCDefinitions.QualifiedIsDeref | FJ-VDMJ4/src/main/java/com/fujitsu/vdmj/tc/definitions/TCLeafDefinitionVisitor.java:273-277 | A qualified definition, at any depth, gives what the definition it stands for gives. |
| TCDefinitions.ExplicitFunctionOrder | FJ-VDMJ4/src/main/java/com/fujitsu/vdmj/tc/definitions/TCLeafDefinitionVisitor.java:102-120 | An explicit function gives its type's results, then its body's, each only with the matching visitor. |
| TCDefinitions.MissingBodyGivesNothing | FJ-VDMJ4/src/main/java/com/fujitsu/vdmj/tc/definitions/TCLeafDefinitionVisitor.java:148-200 | An implicit function or operation without a body gives nothing. |
| TCDefinitions.InstanceVariableAsAssignment | FJ-VDMJ4/src/main/java/com/fujitsu/vdmj/tc/definitions/TCLeafDefinitionVisitor.java:214-225 | An instance variable without an initialiser gives nothing. With one, it is visited as an assignment definition. |
| TCDefinitions.EmptyKinds | FJ-VDMJ4/src/main/java/com/fujitsu/vdmj/tc/definitions/TCLeafDefinitionVisitor.java:142-360 | External, imported, inherited, mutex, named-trace, renamed and untyped definitions give nothing. |
| TCDefinitions.TypeDefOrder | FJ-VDMJ4/src/main/java/com/fujitsu/vdmj/tc/definitions/TCLeafDefinitionVisitor.java:323-354 | A type definition gives its type, then its inv, eq and ord expressions, each if present. A missing visitor leaves out its part. |
| TCDefinitions.StateDefOrder | FJ-VDMJ4/src/main/java/com/fujitsu/vdmj/tc/definitions/TCLeafDefinitionVisitor.java:285-314 | A state definition gives its field types in order, then its inv and init expressions, each if present. A missing visitor leaves out its part. |
| TCDefinitions.OnlyUnhandledWithoutSubVisitors | FJ-VDMJ4/src/main/java/com/fujitsu/vdmj/tc/definitions/TCLeafDefinitionVisitor.java:42-402 | Without sub-visitors, a visit gives only `caseDefinition`'s results for the kinds without a case. It reaches those through class members and qualifications, in order. |
| TCDefinitions.Unhandled | FJ-VDMJ4/src/main/java/com/fujitsu/vdmj/tc/definitions/TCLeafDefinitionVisitor.java:42-402 | The definitions a visit hands to `caseDefinition` are all of kinds without a case, and all lie inside the visited definition. A kind with its own case, that is neither class-like nor qualified, hands none. |
| TCDefinitions.ClassLikeAsClass | FJ-VDMJ4/src/main/java/com/fujitsu/vdmj/tc/definitions/TCLeafDefinitionVisitor.java:62-73 | BUS, CPU and system classes give exactly what a class with the same members gives, split anywhere into the two parts' results. |
| TCDefinitions.NoExpVisitorNoBinds | FJ-VDMJ4/src/main/java/com/fujitsu/vdmj/tc/definitions/TCLeafDefinitionVisitor.java:382-402 | Without an expression visitor, multiple binds give nothing. |
| TCDefinitions.NoTypeVisitorNoTypes | FJ-VDMJ4/src/main/java/com/fujitsu/vdmj/tc/definitions/TCLeafDefinitionVisitor.java:292-298 | Without a type visitor, field types give nothing. |

## Left out

- `breakpoint.check`, the debugger's suspension call, is recorded as a
  `Suspend` event only in `WhileStatements.EvalWhile`. Elsewhere it is left
  out, because it has no effect on the result.
- SetExpressions.EvalCardinality: the suspension check made before the operand
  is evaluated is not modelled. The operand's outcome is a parameter.
- SetExpressions.EvalCardinality: `ExceptionHandler.handle` is not part of
  this model. A located exception from the operand is modelled as propagating
  unchanged.
- SetExpressions.EvalDistIntersect: the members are visited in the set's own
  iteration order, which is not modelled. When several members are not sets,
  the contract says only that one of them is reported.
- MkTypeExpressions.EvalMkType: the record constructor's shape checks are not
  part of this model. They are a parameter that builds a record or fails with
  a value error.
- FuncInstantiation.EvalFuncInstantiation: `Instantiate.instantiate` and
  `getPolymorphicValue` are parameters.
- FuncInstantiation.EvalFuncInstantiation: `setSelf` and the cleared
  `uninstantiated` flag are modelled as a record update of the returned
  value. If the polymorphic value is shared, the in-place update and its
  aliasing are not captured.
- FuncInstantiation.GetValues: `getValues` and `getOldNames` only delegate to
  the function expression, so there is nothing to state beyond the delegation.
- WhileStatements.Loop: a `fuel` bound on the number of iterations stands in
  for non-termination. A run that has not finished when the fuel runs out
  has no outcome.
- POPatterns.IntegerPatternDependsOnToken: `TCNumericType.typeOf` is a
  parameter, so the numeric type chosen for a literal is not modelled.
- The values' own `equals`, `hashCode` and `toString` are Dafny equality and
  parameters `hashOf` and `show`, assumed consistent with each other.
- Coercions (`setValue`, `boolValue`, `charValue`, `mapValue`,
  `functionValue`) live in `Value.java`, which is not part of this model.
  Each is modelled as giving the payload of a matching value after
  dereferencing, or else a coercion error naming the expected and actual
  kinds.
- Annotations.Registry.Init: the reflective lookup and invocation of each
  kind's static `doInit` is replaced by an explicit initialiser per kind.
  The declared kinds are visited in an unspecified order of the set.
- The annotation hooks (`INAnnotation.java:101-124`: before and after
  statements, expressions and modules) have no-op defaults and no state.
  They are not modelled.
- Module initialisation: the timing and verbose console output, and the
  printing of each problem to the error stream, are left out. `INModule`'s own
  `initialize` is a parameter over an abstract world state.
- `INModuleList`'s `toString` and `creatInitialContext` are not part of this
  model, because they only format or construct.
- FreeVariables: the free variables of binds and of types are computed by
  classes that are not part of this model. A set or sequence bind gives the
  free variables of its expression, and a type gives the type names it
  mentions. A variable's explicit (module-qualified) name is the name
  itself.
- FreeVariables: expression kinds without a case of their own are either a
  `Leaf`, which gives nothing (`caseExpression`), or a `Compound`, which
  gives the union over its children. The latter is the default traversal of
  the leaf expression visitor, which is not part of this model.
- INStatementFinder: the interpreter's leaf expression visitor is not part
  of this model. It is modelled as visiting an expression node before its
  sub-expressions, left to right.
- ASTStatements.AgreesWithInterpreter: annotated statements are excluded. At
  the parsed-tree stage they are handled by `ASTStatementVisitor`, which is
  not part of this model, so they go to `caseStatement` here.
- TCDefinitions: `TCDefinitionVisitor`, the base of the leaf visitor, is not
  part of this model. BUS, CPU and system classes are modelled as taking the
  class case, as the interpreter's definition visitor routes them
  (`INDefinitionVisitor.java:40-43`, `55-58`, `140-143`). Every other kind
  without a case is represented by `OtherDef` and goes to `caseDefinition`.
- The visitors' collections are lists, so results are concatenated. A set
  collection would lose the order and multiplicity that the lemmas state.
- Expressions, types and statements handed to sub-visitors are uninterpreted
  identities. Only their position in the visit order is modelled.
- Set, sequence and record pattern matching does not appear in the modelled
  files and is not modelled.
