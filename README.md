# MiniZinc semantic analysis: a Dafny model

This project models the core of the MiniZinc type checker (`lib/typecheck.cpp`) and two pieces of the solver-instance base (`lib/solver_instance_base.cpp`), and proves properties of that model.

The modelled parts of the type checker are:

- the scope stack that resolves identifiers and warns about shadowing;
- the dependency orderer (`TopoSorter`), which gives every declaration a position after the declarations it refers to and reports undefined identifiers and circular definitions;
- the coercion decision `add_coercion`;
- the typing of set literals and of if-then-else expressions;
- the split of a comprehension's `where` clause into conjuncts;
- the rewrite of a comparison with a var `count`/`sum` into a `count_*` constraint;
- the ordinal arithmetic of `create_enum_mapper`, and the names of the generated to-string functions;
- the fixpoint that decides which functions get a par version.

From the solver-instance base, it models:

- the flattening of nested `seq_search` annotations;
- the constraint registry.

Each module sits in one file:

| file | module | models |
|---|---|---|
| `types.dfy` | `Types` | the `Type` record (instantiation, base kind, set-ness, optionality, contains-var, dimension, enum identity), `Option`, `Result` |
| `scopes.dfy` | `Scopes` | class `Scopes`, as the class `ScopeStack` over a sequence of frames |
| `topo_sorter.dfy` | `TopoSort` | class `TopoSorter` |
| `coercion.dfy` | `Coercion` | `add_coercion` |
| `set_literal.dfy` | `SetLiteral` | `Typer::vSetLit` |
| `conditional.dfy` | `Conditional` | `Typer::vITE` |
| `where_split.dfy` | `WhereSplit` | the `where` split in `Typer::vComprehension` |
| `count_rewrite.dfy` | `CountRewrite` | the `count_*` rewrite in `Typer::vBinOp` |
| `enum_mapper.dfy` | `EnumMapper` | `create_enum_mapper`, `create_enum_to_string_name` |
| `par_pruning.dfy` | `ParSpecialisation` | the pruning of `fnsToMakePar` |
| `search_annotations.dfy` | `SearchAnnotations` | `flattenSearchAnnotations`, `Registry::add`, `Registry::post` |

The form follows the source:

- The classes whose fields the code updates are Dafny classes with `modifies` clauses: the scope stack, the topological sorter, the par-candidate table, the flattener's output vector and the registry.
- The visitors' loops (set literal, if-then-else, `where` split, the enum parts loop, the pruning loop) are methods with loop invariants. Each is proved equal to a specification function, and the properties are lemmas about that function.
- Thrown type errors are the `Err` case of a `Result`, and each error kind is its own constructor.

Some helpers the core calls are not among the modelled files, so they are parameters:

- the base-kind subtype test `Type::btSubtype` is `sub`;
- overload resolution (`matchFn` then `rtype`) for the conversion functions is `resolve`;
- the edit distance used for "did you mean" suggestions is `dist`.

`StdSubtype` and `StdResolve` are standard instances. The lemmas whose names start with `Std` use them.

One thing differs from a literal reading of the code:

- A set literal's enum identity starts from the first element's, even when that element is `<>`. The model keeps this as written (`SetLiteral.Start`).

## Model

| member | source | states |
|---|---|---|
| Scopes.HighestToplevel | lib/typecheck.cpp:78-96 | the frame where `find` jumps to the bottom frame is a TOPLEVEL frame, and no frame above it is |
| Scopes.ScopeStack.constructor | lib/typecheck.cpp:29 | a fresh stack holds a single empty TOPLEVEL frame |
| Scopes.ScopeStack.PushToplevel | lib/typecheck.cpp:70 | appends an empty TOPLEVEL frame and changes nothing else |
| Scopes.ScopeStack.PushFun | lib/typecheck.cpp:72 | appends an empty FUN frame and changes nothing else |
| Scopes.ScopeStack.Push | lib/typecheck.cpp:74 | appends an empty INNER frame and changes nothing else |
| Scopes.ScopeStack.Pop | lib/typecheck.cpp:76 | removes the top frame; the bottom TOPLEVEL frame survives |
| Scopes.ScopeStack.ShadowCheck | lib/typecheck.cpp:38-57 | reports a frame exactly when a new INNER binding shadows it: it is the nearest frame binding the name, and only INNER frames lie between; reports none when nothing is shadowed |
| Scopes.ScopeStack.Add | lib/typecheck.cpp:31-68 | four iff clauses: an enum with a definition outside a TOPLEVEL frame is rejected; an anonymous name is skipped; a new name is inserted into the top frame only; a repeated name is a duplicate definition unless it is a hidden identifier. A reported shadowed frame really is shadowed |
| Scopes.ScopeStack.Find | lib/typecheck.cpp:78-96 | finds a binding iff one is visible from the top frame down to the innermost TOPLEVEL frame, or in the bottom frame; returns the innermost such binding, then the bottom frame's |
| Scopes.ScopeStack.FindSimilar | lib/typecheck.cpp:98-121 | a suggestion is a visible name within length 3 whose distance is below 3 and minimal among the visible names; none means every visible name close in length is at distance 3 or more |
| TopoSort.FinishedPathDescends | lib/typecheck.cpp:1330-1344 | in a topologically ordered state, every chain of references from a finished declaration ends at a declaration with a smaller position |
| TopoSort.FinishedReachesNoCycle | lib/typecheck.cpp:1330-1344 | no declaration reachable from a finished declaration lies on a cycle |
| TopoSort.MarkKeepsInvariants | lib/typecheck.cpp:1332-1333 | marking a new declaration in progress (-1) and pushing it keeps the order invariant and the in-progress-equals-stack invariant |
| TopoSort.FinishKeepsInvariants | lib/typecheck.cpp:1336-1339 | giving the walked declaration the next position, once all it refers to has finished, keeps both invariants |
| TopoSort.TopoSorter.Add | lib/typecheck.cpp:1175-1187 | registers a top-level name in the bottom frame with the outcomes of the scope stack's add in a TOPLEVEL frame (iff clauses); positions and order unchanged |
| TopoSort.TopoSorter.Get | lib/typecheck.cpp:1189-1203 | succeeds iff the name is declared, with its declaration; otherwise undefined identifier |
| TopoSort.TopoSorter.Mark | lib/typecheck.cpp:1332-1333 | the declaration is marked -1 and pushed on the walk; invariants kept |
| TopoSort.TopoSorter.Finish | lib/typecheck.cpp:1336-1339 | the declaration gets the next position (the length of `decls`), is appended to `decls` and popped; invariants kept |
| TopoSort.TopoSorter.CheckRefs | lib/typecheck.cpp:1334-1335 | on success every identifier the declaration refers to names a declaration that finished earlier; errors are undefined names or names on a real cycle |
| TopoSort.TopoSorter.CheckId | lib/typecheck.cpp:1205-1231 | an undeclared name gives undefined identifier; a name whose declaration is in progress gives circular definition (and it is on a cycle); a name whose declaration has already finished is resolved with no change of state; a success always resolves the name to a finished declaration |
| TopoSort.TopoSorter.Run | lib/typecheck.cpp:1330-1344 | a new declaration ends at a position after everything it refers to; a finished one is left alone; finished positions never change and `decls` only grows |
| TopoSort.TopoSorter.RunAll | lib/typecheck.cpp:3198 | on success every declaration item has a position; a circular-definition error names a declaration on a cycle |
| Coercion.WideningFor | lib/typecheck.cpp:1526-1538 | a conversion exists iff one of `bool2int`, `bool2float`, `int2float` goes from the argument's base kind to the parameter's |
| Coercion.Coerce | lib/typecheck.cpp:1497-1552 | no conversion when the shapes already agree; a scalar var set passed as an array is rejected, and so is a scalar par optional one, and these errors arise only there; at most two conversions; `set2array` comes first and only for a scalar passed as an array |
| Coercion.CoercionOnlyWidens | lib/typecheck.cpp:1520-1547 | every numeric conversion inserted is a widening from the argument's base kind (after any `set2array`) to the parameter's, and comes last |
| Coercion.StdCoercionExact | lib/typecheck.cpp:1497-1552 | with equal dimensions, coercion succeeds iff the kinds agree or widen, and the result has the parameter's kind and the argument's shape |
| Coercion.StdSetToArray | lib/typecheck.cpp:1504-1519 | a par, non-optional scalar set passed as an array becomes a one-dimensional array through `set2array` |
| Coercion.StdCoercionIdempotent | lib/typecheck.cpp:1497-1552 | a coerced argument needs no further coercion |
| SetLiteral.JoinElements | lib/typecheck.cpp:1601-1628 | the element-join loop computes the join specification `Join` |
| SetLiteral.TypeSetLit | lib/typecheck.cpp:1586-1645 | the visitor computes the specification `SetLitType` |
| SetLiteral.JoinSticky | lib/typecheck.cpp:1601-1628 | the first error of the join is the error reported |
| SetLiteral.CoerceAllSticky | lib/typecheck.cpp:1641-1643 | the first coercion error is the error reported |
| SetLiteral.CoerceAllEach | lib/typecheck.cpp:1641-1643 | each element gets exactly its own coercion to the literal's type |
| SetLiteral.StepFacts | lib/typecheck.cpp:1602-1627 | one join step rejects arrays and sets, accumulates var and contains-var, and clears the enum identity on a mismatch; `<>` changes nothing |
| SetLiteral.JoinFacts | lib/typecheck.cpp:1600-1628 | after the join: var iff some element is var; contains-var iff some element is; the enum identity survives iff all present elements share the first's; all `<>` leaves the kind unknown |
| SetLiteral.SetLitScalarElements | lib/typecheck.cpp:1603-1611 | an accepted literal has no array or set element |
| SetLiteral.SetLitVarIff | lib/typecheck.cpp:1612-1640 | the literal is a var set iff some present element is var, and a var set is a set of int |
| SetLiteral.SetLitVarNotIntRejected | lib/typecheck.cpp:1634-1638 | a var literal whose elements join to a kind other than int or bool is rejected with the var-int error |
| SetLiteral.SetLitVarBoolPromoted | lib/typecheck.cpp:1634-1636 | a var literal of bool becomes a var set of int, and its elements are coerced to that type |
| SetLiteral.SetLitEnumId | lib/typecheck.cpp:1600-1640 | the literal's enum identity is the first element's iff every present element shares it, else none |
| SetLiteral.SetLitAllAbsent | lib/typecheck.cpp:1629-1643 | a literal without present elements (such as `{}`) is a par set of bottom kind with its elements unchanged |
| SetLiteral.AllAbsentJoin | lib/typecheck.cpp:1601-1628 | only `<>` elements leave the join at its start |
| SetLiteral.StdJoinUpperBound | lib/typecheck.cpp:1613-1625 | the joined kind is an upper bound of every element's kind under widening, and is itself one of them |
| SetLiteral.StdSetLitUniform | lib/typecheck.cpp:1586-1645 | every present element of an accepted literal is coerced to exactly the literal's element kind |
| SetLiteral.StdCoerceElement | lib/typecheck.cpp:1641-1643 | an element whose kind widens to the literal's kind is coerced to that kind |
| Conditional.SynthElse | lib/typecheck.cpp:2214-2235 | an `else` is synthesised iff the result is a bool, a string, an annotation or an array, with its kind and dimension |
| Conditional.JoinCase | lib/typecheck.cpp:2163-2212 | one loop iteration computes the specification `Step` |
| Conditional.JoinBranches | lib/typecheck.cpp:2148-2213 | the first loop computes the specification `Join` |
| Conditional.CoerceBranches | lib/typecheck.cpp:2236-2246 | the coercion loop computes the specification `CoerceThens` |
| Conditional.TypeIte | lib/typecheck.cpp:2146-2268 | the visitor computes the specification `IteType` |
| Conditional.IteJoinSticky | lib/typecheck.cpp:2162-2213 | the first error of the join is the error reported |
| Conditional.CoerceThensSticky | lib/typecheck.cpp:2236-2246 | the first coercion error is the error reported |
| Conditional.StepFacts | lib/typecheck.cpp:2163-2212 | a step accepts only a bool condition and records var conditions, var branches and optional branches exactly |
| Conditional.JoinFacts | lib/typecheck.cpp:2148-2213 | after the join every condition is a bool, and the three flags hold iff some condition or branch has that property |
| Conditional.IteVarOptIff | lib/typecheck.cpp:2146-2268 | the result is var iff some condition or branch is var, and optional iff some branch is optional |
| Conditional.IteCondsBool | lib/typecheck.cpp:2165-2170 | every condition of an accepted conditional is a bool |
| Conditional.IteVarCondRestricted | lib/typecheck.cpp:2247-2261 | with a var condition the result is not an array, string or annotation, and a set only of int |
| Conditional.IteNoElseKinds | lib/typecheck.cpp:2214-2235 | without `else` the result is a scalar bool, string or annotation, or an array |
| Conditional.CoerceThensEach | lib/typecheck.cpp:2236-2246 | each `then` branch gets its own coercion to the result type, with `_` taking the var version |
| Conditional.IteBranchesCoerced | lib/typecheck.cpp:2236-2268 | every branch is coerced to a type that agrees with the result except in instantiation and optionality |
| WhereSplit.SplitWhere | lib/typecheck.cpp:1965-1982 | the stack loop produces exactly the left-to-right conjuncts of the clause |
| WhereSplit.ConjunctsEquivalent | lib/typecheck.cpp:1965-1982 | the clause holds iff every conjunct holds |
| WhereSplit.ConjunctsMaximal | lib/typecheck.cpp:1972-1978 | there is at least one conjunct and none is itself a conjunction |
| WhereSplit.ConjunctsOfNonAnd | lib/typecheck.cpp:1976-1980 | a clause that is not a conjunction is kept whole |
| CountRewrite.Mirror | lib/typecheck.cpp:2299-2314 | the mirrored operator with swapped operands has the same truth value, for all operands (with MirrorSwaps: an involution) |
| CountRewrite.CountFor | lib/typecheck.cpp:2338-2358 | the chosen `count_*` constraint holds for count `n` and value `m` exactly when `n op m` does |
| CountRewrite.RewriteCount | lib/typecheck.cpp:2291-2412 | a rewrite happens only for a comparison, records which side the count was on, and the chosen constraint holds exactly when the original comparison does, for all values |
| CountRewrite.MirrorSwaps | lib/typecheck.cpp:2299-2314 | mirroring an operator is an involution, and `a op b` equals `b mirror(op) a` |
| CountRewrite.RewriteSound | lib/typecheck.cpp:2291-2412 | the original comparison holds iff the `count_*` constraint holds, whichever side the count was on |
| CountRewrite.RewriteNeedsVarCount | lib/typecheck.cpp:2291-2320 | only int comparisons with a var `count` or `sum` operand are rewritten |
| CountRewrite.ComprehensionSides | lib/typecheck.cpp:2322-2337 | the counted value is a side without generator variables, and the other side is generated |
| CountRewrite.Project | lib/typecheck.cpp:2359-2362 | the generated values are one per generator instance, each the chosen side's value for that instance |
| CountRewrite.CountingPreserved | lib/typecheck.cpp:2359-2362 | counting occurrences of the compared value among the generated values counts the instances where the equality holds |
| EnumMapper.Cardinalities | lib/typecheck.cpp:264-267 | the corrected cumulative cardinalities have one entry per part |
| EnumMapper.LayOut | lib/typecheck.cpp:238-849 | the parts loop collects `partCardinality` as written and the ordinal of every literal identifier |
| EnumMapper.LayOutPart | lib/typecheck.cpp:239-267 | one part adds its identifiers' ordinals and pushes the running total, except an empty literal part pushes nothing |
| EnumMapper.LastCardinality | lib/typecheck.cpp:241 | the last collected cardinality is the number of ordinals used so far (0 when none) |
| EnumMapper.PrevAsWrittenAgrees | lib/typecheck.cpp:241 | the offset read before each part is the number of ordinals the earlier parts use |
| EnumMapper.TotalIsSum | lib/typecheck.cpp:836-847 | the enum's range `1..N` has N equal to the total number of ordinals |
| EnumMapper.PartBlocks | lib/typecheck.cpp:238-849 | the parts' ordinal blocks follow each other without overlap and end at the total |
| EnumMapper.NamedOrdinalsInRange | lib/typecheck.cpp:252-257 | literal identifiers get distinct, increasing ordinals within `1..N` |
| EnumMapper.LiteralRoundTrip | lib/typecheck.cpp:305-315 | a literal identifier's to-string shows the identifier itself |
| EnumMapper.ConstructorRoundTrip | lib/typecheck.cpp:477-642 | `C⁻¹(C(x)) = x` and `C(C⁻¹(y)) = y`, and `C` maps the argument set onto the part's block |
| EnumMapper.ConstructorPartBlock | lib/typecheck.cpp:477-642 | with the offset computed from the running total before the part, a constructor part maps its argument set exactly onto its own block, inside the enum's range |
| EnumMapper.DispatchFindsOwner | lib/typecheck.cpp:876-889 | with one cumulative cardinality per part, the dispatcher sends each ordinal to the part that owns it |
| EnumMapper.CardinalityEntry | lib/typecheck.cpp:827-833 | entry `i` of the corrected cardinalities counts the ordinals of parts `0..i` |
| EnumMapper.AsWrittenAgrees | lib/typecheck.cpp:242-267 | without an empty literal part, the cardinalities the code collects are exactly one cumulative entry per part |
| EnumMapper.DispatchAsWrittenFindsOwner | lib/typecheck.cpp:876-889 | without an empty literal part, the dispatcher over the collected cardinalities sends each ordinal of the enum to the part that owns it |
| EnumMapper.DispatchAsWrittenMisroutes | lib/typecheck.cpp:264-267 | with an empty literal part in the middle, the dispatcher as written sends ordinal 2 to the wrong part |
| EnumMapper.AnonShownAsWrittenOutOfRange | lib/typecheck.cpp:382-387 | the anonymous part's to-string as written shows an ordinal outside the enum's range |
| EnumMapper.AnonShownAsWrittenAgrees | lib/typecheck.cpp:382-387 | the generated anonymous to-string shifts each ordinal by the ordinals before the part, so it is right exactly when none precede it |
| EnumMapper.AnonShownInRange | lib/typecheck.cpp:382-387 | the corrected anonymous to-string shows an ordinal within the enum's range |
| EnumMapper.ToStringNameInjective | lib/typecheck.cpp:4167-4171 | for a fixed prefix, different enum identifiers give different function names |
| EnumMapper.Decimal | lib/typecheck.cpp:271 | `std::to_string` yields a nonempty string of decimal digits |
| EnumMapper.DecimalInjective | lib/typecheck.cpp:338-341 | different part numbers give different digit strings |
| EnumMapper.PartToStringNamesDistinct | lib/typecheck.cpp:338-341 | distinct parts or distinct enums never share a to-string function name |
| ParSpecialisation.Blocked | lib/typecheck.cpp:3676-3682 | the candidates a scan removes are candidates |
| ParSpecialisation.WithoutSmaller | lib/typecheck.cpp:3683-3688 | erasing a nonempty set of candidates leaves fewer, so the loop terminates |
| ParSpecialisation.PrunedSubmap | lib/typecheck.cpp:3672-3690 | pruning only erases, and the survivors keep their records |
| ParSpecialisation.PrunedClosed | lib/typecheck.cpp:3672-3690 | afterwards every dependency of a survivor survives |
| ParSpecialisation.PrunedGreatest | lib/typecheck.cpp:3672-3690 | every dependency-closed set of candidates survives, so the result is the largest closed subset |
| ParSpecialisation.BlockedMissesClosed | lib/typecheck.cpp:3676-3682 | a scan never removes a member of a dependency-closed set |
| ParSpecialisation.PrunedKeepsClosed | lib/typecheck.cpp:3672-3690 | a closed table is left unchanged |
| ParSpecialisation.ParSpecialiser.Insert | lib/typecheck.cpp:3662-3666 | registers a candidate; a function already present keeps its first record |
| ParSpecialisation.ParSpecialiser.CollectBlocked | lib/typecheck.cpp:3676-3682 | a scan collects exactly the candidates that depend on a non-candidate |
| ParSpecialisation.ParSpecialiser.EraseAll | lib/typecheck.cpp:3683-3688 | erases exactly the collected candidates |
| ParSpecialisation.ParSpecialiser.Prune | lib/typecheck.cpp:3672-3690 | the loop leaves the table equal to the fixpoint `Pruned`, which is the largest closed subset |
| SearchAnnotations.SearchFlattener.FlattenSearchAnnotations | lib/solver_instance_base.cpp:56-71 | appends the flattening of the annotations to the output and keeps what was there |
| SearchAnnotations.FlattenedConcat | lib/solver_instance_base.cpp:56-71 | flattening keeps order: it distributes over concatenation |
| SearchAnnotations.FlattenedHasNoSeqSearch | lib/solver_instance_base.cpp:60-66 | no `seq_search` remains in the output |
| SearchAnnotations.FlattenedPassesThrough | lib/solver_instance_base.cpp:67-68 | other annotations pass through unchanged and in order |
| SearchAnnotations.FlattenedIdempotent | lib/solver_instance_base.cpp:56-71 | flattening a flattened list changes nothing |
| SearchAnnotations.SeqSearchReplaced | lib/solver_instance_base.cpp:60-66 | a `seq_search` is replaced in place by its elements' flattening |
| SearchAnnotations.RegisterThenLookup | lib/solver_instance_base.cpp:33-44 | after registering, the name is known, the first poster wins, and other names are unaffected |
| SearchAnnotations.FirstRegistrationWins | lib/solver_instance_base.cpp:33-35 | a second registration under a name leaves the first poster |
| SearchAnnotations.Registry.Add | lib/solver_instance_base.cpp:33-35 | inserts the poster unless the name is already registered |
| SearchAnnotations.Registry.Post | lib/solver_instance_base.cpp:37-44 | finds a poster iff the name is registered, the registered one; none is the "constraint not found" exit |

## Left out

- Conditional.Step: a condition's type is compared with `par bool` and `var bool` ignoring the contains-var flag. The comparison `Type::operator==` is not among the modelled files, and the checker sets the flag from that same condition right after the comparison.
- Error messages, source locations and warnings are out of scope: an error is a `Result` constructor, and a shadowing warning is the frame it would name.
- The edit distance used for suggestions, `Type::btSubtype`, and overload resolution (`matchFn`, `rtype`) are not among the modelled files. They are parameters.
- Construction of syntax trees is out of scope: conversion calls, the `count_*` call, the generated enum definitions and their function bodies. The model states the decisions and the arithmetic those trees encode.
- Coercion.Coerce: the array-slice case of `add_coercion` (lib/typecheck.cpp:1397-1496) is not modelled; the model starts at the general case.
- CountRewrite.RewriteCount: the `InternalError` raised when no `count_*` declaration matches is not modelled, since declaration lookup is overload resolution.
- EnumMapper: the string bodies of the generated to-string functions (quoting, JSON output, `<>`) are not modelled. Neither is the no-definition stub for an enum without a right-hand side (lib/typecheck.cpp:164-194), which builds syntax only.
- EnumMapper.ToStringName: the enum's identifier is its printed name, a string. The printing of an `Id` is not modelled.
- EnumMapper.LayOut: the type errors for a non-identifier literal element and for the shape of a constructor argument are not modelled; parts are taken as well formed.
- TopoSort.TopoSorter.Run: only the declaration case of `run` is modelled. A declaration is abstracted to the identifiers its type-inst and initializer refer to, and the walk over other expression kinds (let, comprehension scopes, enum handling in `add`) is not modelled.
- TopoSort.TopoSorter.CheckId: the "did you mean" suggestion is `Scopes.ScopeStack.FindSimilar`, not repeated here; names resolve through the bottom frame only, as in a nested walk.
- ParSpecialisation: the traversal that decides which functions are candidates and which calls are dependencies (lib/typecheck.cpp:3561-3667) is not modelled; the candidate table is the input.
- SearchAnnotations.Registry.Post: invoking the poster on the solver and the process exit are not modelled; the result is the poster found, or none.
- SearchAnnotations.SearchFlattener.FlattenSearchAnnotations: the cast of a `seq_search` argument to an array literal is taken to succeed; an argument of another kind is not modelled.

## Findings

| source | as written | input that shows it | evidently intended | confidence | as-written member | corrected member |
|---|---|---|---|---|---|---|
| lib/typecheck.cpp:264-267 | a literal part pushes its running total only when it handles its last identifier, so an empty literal part pushes no entry and the dispatcher's thresholds (lib/typecheck.cpp:883) shift by one part | `enum X = {A} ++ {} ++ {B}`: ordinal 2 (`B`) is sent to part 1's to-string function | one cumulative cardinality per part, so that entry `i` bounds part `i` | not executed | EnumMapper.DispatchAsWrittenMisroutes | EnumMapper.DispatchFindsOwner |
| lib/typecheck.cpp:382-387 | the anonymous part's to-string shows `partCardinality.back() + deopt(x)`, although the dispatcher passes the enum's own ordinal (the literal part subtracts the offset at 310-315, the constructor inverts it at 640-642) | `enum X = {A} ++ anon_enum(1)`: the last element, ordinal 2, is shown as `to_enum(X, 3)` in a range `1..2` | show `to_enum(X, deopt(x))` | not executed | EnumMapper.AnonShownAsWrittenOutOfRange | EnumMapper.AnonShownInRange |
