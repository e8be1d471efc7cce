# qk compiler verification

A Dafny model of the logic of the qk compiler that is hardest to get right: its
type algebra, generic inference, the whole-program fixpoints and worklists,
match coverage, the precedence parser, module ordering, compile-time evaluation
and the artifact format. `dafny verify dfyconfig.toml` checks everything.

Code that updates state in place is modelled by classes and loops (the
inference map, the trait-flow map, the forwarding tables held by shared
signatures, the token cursor, the coverage search, the path sets of the
completeness check, the dependency walk, the queues, the byte reader, the
compile-time memory). Each method is proved against a function of its inputs or
of the old state, and the laws are lemmas about those functions. Iteration over
a Go map picks an arbitrary element, so what is proved holds for every order.

| file | models |
|---|---|
| Types, TypeEquality, Substitution, SubstitutionLaws, DetachLaws | types, equality, both substitutions, detaching |
| IdentityLaws | what the identity text of a type determines |
| Completeness | the by-value completeness check on cyclic type graphs |
| Inference, InferenceLaws, MatchingPlaces, ResultInference | inference of generic arguments for a call |
| TraitFlow | which concrete types reach a trait cast, and narrowing the candidates |
| Reachability, Propagation | propagation of specialization constants and variadic arities |
| Routes, Dependency | the module dependency order |
| Coverage, CoverageLaws | unreachable arms and exhaustive matches |
| Parser, ParserLaws, PrecedenceLaws | the expression ladder, its grammar and a printer |
| Staging, StagingLaws, RepeatedNames | compile-time expressions and the priming of bindings |
| Specializations, SpecializationLaws, InstanceLaws | the instantiation worklist |
| NativeSymbols | the native symbols that a link needs |
| ArtifactFormat | cached artifacts as bytes |
| EvalMemory | loads and stores of the compile-time evaluator |
| Decimal | decimal texts |

## What the proofs show about the code

- A match arm can be called unreachable although it is not
  (`CoverageLaws.CharacterArmIsMisjudged`): validation wraps a character literal
  in a conversion when the subject is a wider unsigned integer, the wrapped
  literal has no coverage key, and a pattern that joins it with a keyed one is
  judged by the keyed one alone. `CoverageLaws.MisjudgedExactly` gives the exact
  condition on an arm.
- The guide (docs/guide.md:352) allows string patterns in a match; the validator
  rejects them (sema/validator.go:983-991). The model follows the validator.
- Pointers into different fields of a struct that lies inside a union are one
  place for the compile-time evaluator (`EvalMemory.FieldsInUnionCollide`),
  because the walk stops at the union step.
- A negative integer that is read through a float member of a union loses its
  sign (`EvalMemory.ReinterpretRoundTrip`, `EvalMemory.MinusOneReadsBackAsOne`):
  the evaluator takes the low 64 bits of its magnitude.
- Type equality is not symmetric on a reference to a transparent alias of a type
  that is neither nominal nor a trait, and is symmetric on those that lead to a
  nominal type or a trait (`TypeEquality.ReferenceIsSymmetricExactly`). With `alias A = *S` and
  `S = struct { next: A }` the type of the field is such a reference, so the
  order of the arguments decides whether inference succeeds
  (`InferenceLaws.AliasActualsDependOnOrder`).
- The identity text leaves out whether a function is variadic, so two unequal
  argument types can share a key (`IdentityLaws.UnequalTypesShareAText`).
  `IdentityLaws.IdentityDecides` says what the text determines.
- Compile-time equality is not transitive: members of two enums equal the literal
  of their common name, and not each other (`StagingLaws.EqualityIsNotTransitive`).
- The completeness check refuses a finite type exactly when a path down its
  by-value unfolding meets one nominal identity twice
  (`Completeness.CompleteExactly`); two bodies under one identity side by side
  are accepted. Name resolution, which decides whether two bodies can share an
  identity, is not part of this model.
- The two substitutions differ exactly where one of them enters a place that the
  other does not, and a parameter is bound there to something else
  (`SubstitutionLaws.SubstitutionsAgree`).
- An artifact with an empty key or with more than 1024 objects is written
  without an error and cannot be read back (`ArtifactFormat.StoreLoadRoundTrip`);
  different artifacts still have different files.
- When a compile-time name is declared twice, among declarations of distinct
  names, its binding depends on the order in which a Go map yields them exactly
  when both declarations resolve, to different values, in what the others end in
  (`RepeatedNames.OrderDecidesExactly`). When other names are
  repeated too, a run that reaches such a contest is enough
  (`RepeatedNames.ContestDisagrees`), and the last resolved declaration of a name
  always gives its binding (`RepeatedNames.LastWins`).

## Model

| member | source | states |
|---|---|---|
| `Types.KeyIdentifiesParameter` | types/type.go:312-319 | two type parameters have the same binding key exactly when they are equal: same owner, same index |
| `Decimal.ItoaInjective` | types/type.go:319 | different integers have different decimal texts, which makes keys built from positions unambiguous |
| `Types.UntypedExactly` | types/type.go:1575-1614 | a type is untyped exactly when a placeholder is among the types it is built from |
| `TypeEquality.UnderlyingIsEnd` | types/type.go:441-455 | following nominal types and aliases ends at a type from which no step goes on, or on a cycle of them |
| `TypeEquality.EqualsReflexive` | types/type.go:388-440 | every type equals itself, through alias tables with cycles too |
| `TypeEquality.EqualsIsCanon` | types/type.go:312-440 | equality is an equivalence, two types being equal exactly when they have the same canonical form, on the types that refer to nominal types and traits alone, directly, recursively or through transparent aliases |
| `TypeEquality.ReferenceIsSymmetricExactly` | types/type.go:388-409 | the exact condition: a reference compares symmetrically with all those types if and only if it leads to a nominal type or a trait |
| `TypeEquality.AliasEqualityIsNotSymmetric` | sema/aliases.go:22-31 | an instance: with `alias A = *S` and `S = struct { next: A }`, the type of the field equals `*S`, and `*S` does not equal it |
| `TypeEquality.NominalIsSymmetricExactly` | types/type.go:420-440 | a nominal type compares symmetrically with them if and only if there is no trait under it |
| `TypeEquality.UnfoldingIsEqual` | types/type.go:388-409 | the recursive alias `alias A = *A` equals each of its unfoldings, since following the alias ends when the other type does |
| `IdentityLaws.TextOfReading` | types/type.go:552-641 | the identity text depends on nothing but the reading of a type: not on the names of instances, representations, alias targets, variadics, values or methods |
| `IdentityLaws.IdentityDecides` | types/type.go:552-641 | and determines it: two types whose names hold no separators have the same text exactly when they have the same reading |
| `IdentityLaws.Unique` | types/type.go:552-641 | the text can be read in one way only, before any separator that may follow it |
| `IdentityLaws.TraitTextDecides` | types/type.go:628-629 | the text of a trait shows its module and its name, when the names hold no dot |
| `IdentityLaws.EnumTextDecides` | types/type.go:614-618 | the text of an enum shows its module and its name, unless it has an identity of its own |
| `IdentityLaws.UnequalTypesShareAText` | types/type.go:587-593 | an instance: two function types that differ in being variadic are unequal and share a text |
| `Substitution.SubstituteTypes` | types/type.go:155-161 | the loop that fills a fresh slice substitutes at every position |
| `Substitution.SubstituteFieldList` | types/type.go:163-169 | the same for fields, whose names stay |
| `Substitution.DetachTypes` | types/type.go:171-177 | the detaching loop over a fresh slice, position by position |
| `Substitution.DetachFieldList` | types/type.go:179-185 | the detaching loop over fields |
| `SubstitutionLaws.SubstituteComposes` | types/type.go:458-550 | substituting twice is substituting once with the composed bindings, for every type constructor |
| `SubstitutionLaws.ClosedAfterSubstitution` | types/type.go:321-350 | after substitution a type still mentions a type parameter exactly when some visible parameter is unbound or bound to an open type |
| `SubstitutionLaws.DetachIdempotent` | types/type.go:21-90 | detaching a detached type changes nothing |
| `DetachLaws.DetachIsExact` | types/type.go:21-90 | the detached type is the one type that leads to no declaration anywhere and differs from the given one in nothing but what references lead to |
| `SubstitutionLaws.SubstitutionsAgree` | types/type.go:92-153 | the substitution that detaches at every level equals detaching first and substituting once, on any type and any bindings, exactly when every bound parameter that one of the two does not enter is bound to itself: under a literal type, in the constraint of an unbound parameter, in the constraints of a generic trait method |
| `SubstitutionLaws.HoldsExactly` | types/type.go:92-153 | place by place on a detached type: when each substitution leaves it unchanged, and when the two agree |
| `SubstitutionLaws.DetachedFirst` | types/type.go:92-153 | detaching first makes no difference to the substitution that detaches |
| `SubstitutionLaws.SequenceTypesDisagree` | types/type.go:92-153 | an instance: a bound parameter under a literal type |
| `SubstitutionLaws.UnboundParametersDisagree` | types/type.go:92-153 | an instance: a bound parameter in the constraint of an unbound one |
| `SubstitutionLaws.GenericMethodsDisagree` | types/type.go:133-150 | an instance: a bound parameter in the constraint of a generic trait method |
| `Completeness.CompletenessCheck.IsComplete` | types/type.go:1005-1054 | the marking search restores its two path sets and answers as its specification on them |
| `Completeness.CompletenessCheck.AllFieldsComplete` | types/type.go:1030-1041 | all fields are complete, with the path sets restored |
| `Completeness.CompleteIsSized` | types/type.go:1005-1054 | what the search accepts, from any path sets, unfolds by value to a finite tree without opaque, trait, Self or dangling parts |
| `Completeness.SizedIsComplete` | types/type.go:1005-1054 | with one definition for each identity, every finite type is accepted from path sets that hold only larger types |
| `Completeness.CompleteExactlyWhenFinite` | types/type.go:1001-1054 | with one definition for each identity, a type is complete exactly when its by-value unfolding is finite and fully represented |
| `Completeness.CompleteExactly` | types/type.go:1001-1054 | without any condition: a type is complete exactly when its by-value unfolding is finite and no path down it meets one nominal identity twice |
| `Completeness.IsComplete` | types/type.go:1001-1003 | the entry point answers, for every type and table, whether the by-value unfolding is finite and no path down it meets one identity twice; with one definition for each identity it answers finiteness |
| `Completeness.SharedIdentityIsRefused` | types/type.go:1013-1022 | an instance: two bodies under one identity are refused when one is inside the other, and accepted side by side |
| `Inference.GenericInference.InferGenericType` | sema/generics.go:920-996 | matching updates the shared map as folding its match events does, and reports the first conflict |
| `Inference.GenericInference.InferAll` | sema/generics.go:971-993 | the loops over type arguments and over parameters |
| `Inference.GenericInference.InferMissingGenericType` | sema/generics.go:869-918 | the gap-filling pass updates the map as supplying its events does; ResultInference.ResultFillsGaps says what that fills |
| `Inference.MatchActuals` | sema/generics.go:822-843 | the loop over the actuals, with variadic patterns, stops at the first conflict |
| `Inference.CollectArguments` | sema/generics.go:847-866 | reads the arguments off the map; the first undetermined parameter is the failure |
| `Inference.InferGenericArgumentsForCall` | sema/generics.go:816-867 | the whole inference is its reference meaning; ResultInference.CallInfersExactly says what it infers |
| `InferenceLaws.FoldSummarises` | sema/generics.go:920-948 | one-shot matching succeeds exactly when all typed events for a parameter agree, and then its map says which parameters are typed and as what, wherever placeholders stood |
| `InferenceLaws.SameEventsSameOutcome` | sema/generics.go:920-948 | success and result depend only on the set of match events |
| `InferenceLaws.PermutationInvariant` | sema/generics.go:816-918 | without typed variadics, permuting the pattern and actual pairs changes neither success nor the arguments, up to type equality, whatever result is expected |
| `InferenceLaws.OrderIsIrrelevantExactly` | sema/generics.go:936-946 | one parameter against two typed actuals: both orders succeed or neither does, if and only if the two compare symmetrically |
| `InferenceLaws.ReferenceOrderIsIrrelevantExactly` | sema/generics.go:936-946 | the exact condition on a reference: whatever actual it is paired with, the order is irrelevant if and only if it leads to a nominal type or a trait |
| `InferenceLaws.AliasActualsDependOnOrder` | sema/generics.go:936-946 | an instance: with `alias A = *S` and `S = struct { next: A }`, a parameter that meets the type of the field and then `*S` is inferred, in the other order it is a conflict |
| `InferenceLaws.ExpectedResultIsInert` | sema/generics.go:844-846 | when the arguments suffice, adding an expected result type returns the same arguments |
| `ResultInference.ResultFillsGaps` | sema/generics.go:869-918 | expecting an instance of the result pattern, of any kind, gives every parameter that the pattern reaches and that the arguments left missing or untyped exactly its image, unless that is untyped; settled ones and all others stay |
| `ResultInference.CallInfersExactly` | sema/generics.go:844-866 | a call infers exactly when the arguments do not conflict and every parameter is settled by them or by the expected result; each answer is the settled type or the image, and a failure names the first parameter that neither settles, as missing or as met by untyped literals only |
| `ResultInference.CallWithoutResult` | sema/generics.go:844-866 | without an expected result, the arguments alone decide in the same way |
| `ResultInference.ShapedCallInfers` | sema/generics.go:844-866 | the same when the expected result is an instance up to the names of instances, lists of results included |
| `ResultInference.LiteralMatchesAlike` | sema/generics.go:956-970 | a literal is matched as the slice or the array that it can be |
| `ResultInference.LiteralSettlesNothing` | sema/generics.go:921-934 | a parameter that meets a literal, or an untyped type, settles nothing and keeps what is settled |
| `ResultInference.VariadicInstances` | sema/generics.go:823-839 | in a typed variadic call the last pattern is matched element by element, or as a slice when one is expanded |
| `MatchingPlaces.EventsExactly` | sema/generics.go:920-996 | matching meets a parameter with a type exactly when some path enters both sides, through agreeing constructors, lengths, arities and generic names, and ends at them |
| `MatchingPlaces.MissingEventsExactly` | sema/generics.go:869-918 | so does the pass over the expected result, where a literal is no slice and lists of results are entered |
| `InferenceLaws.MatchingIsComplete` | sema/generics.go:920-996 | matching a pattern against an instance of it, under whatever instance names, succeeds, reaches exactly the parameters of the pattern that can be inferred, and gives each the instantiating type up to instance names |
| `InferenceLaws.InstanceMatchIsExact` | sema/generics.go:920-996 | matching a pattern of any kind against its literal instance gives exactly the instantiating substitution |
| `InferenceLaws.CallRecoversArguments` | sema/generics.go:816-867 | a call whose actuals are instances of its patterns, variadic ones included, gets back the instantiating types up to instance names, whatever result is expected |
| `InferenceLaws.CallRecoversExactly` | sema/generics.go:816-867 | and exactly those types when the actuals are literal instances |
| `InferenceLaws.MatchingIsSound` | sema/attribution.go:1733-1780 | when the pattern structurally matches and inference succeeds, substituting what was found gives the actual type back |
| `TraitFlow.ContainsType` | loader/trait_flow.go:152-159 | membership up to type equality |
| `TraitFlow.Flow.AddPossibleType` | loader/trait_flow.go:144-150 | adds exactly one fact and reports whether it was new |
| `TraitFlow.Flow.AddPossibleTraitType` | loader/trait_flow.go:135-142 | adds the type under the mutable and the immutable key |
| `TraitFlow.Flow.Propagate` | loader/trait_flow.go:64-74 | the changed-flag loop ends, in the live values exactly |
| `TraitFlow.ClosedIsComplete` | loader/trait_flow.go:64-74 | a closed set of live facts with the seeds in it is the set of all values that some run produces |
| `TraitFlow.NarrowRuntimeTraitCastCandidates` | loader/trait_flow.go:29-86 | runs carry the trait pointer that is their static type: the map holds a type under the key of a pointer exactly when some run brings a value of that type behind that trait with that mutability, and every candidate list keeps exactly the candidates that can arrive at its source |
| `TraitFlow.KeyIsPointer` | loader/trait_flow.go:126-133 | two pointers have one key exactly when they point to the same trait with the same mutability |
| `TraitFlow.FilterCandidates` | loader/trait_flow.go:76-85 | the in-place filter keeps the live candidates in order |
| `TraitFlow.NarrowingPreservesRuns` | loader/trait_flow.go:29-86 | no run of erasures, views and recasts can tell the narrowed program from the original: a removed candidate is never the dynamic type at its recast |
| `TraitFlow.NarrowingPreservesLiveness` | loader/trait_flow.go:29-86 | the same values arrive behind the same pointers before and after |
| `TraitFlow.NarrowingIsIdempotent` | loader/trait_flow.go:29-86 | narrowing twice changes nothing more |
| `Propagation.PropagateSpecializationConstants` | loader/pipeline.go:285-315 | the loop ends on every forwarding graph, and a key is at a parameter exactly when it started at one linked to it by a chain of forwards from listed signatures; the constant there started under that key at such a parameter, and constants already there stay |
| `Propagation.ForwardToFixpoint` | loader/pipeline.go:295-315 | rounds until a round changes nothing |
| `Propagation.FixpointIsSpread` | loader/pipeline.go:295-315 | a state that a round leaves alone holds exactly what chains spread |
| `Propagation.ForwardAll` | loader/pipeline.go:298-313 | one round pushes every forward once and reports whether anything changed |
| `Propagation.ForwardKeys` | loader/pipeline.go:300-312 | one forward copies the missing keys, allocating the maps that are missing |
| `Propagation.PropagateTypedVariadicArities` | loader/pipeline.go:317-344 | the same exactness for arities of variadic signatures |
| `Propagation.ListingOrderIsIrrelevant` | loader/pipeline.go:285-294 | the order and repetition of the listed signatures are irrelevant to what constants spread |
| `Propagation.ListingOrderIsIrrelevantToArities` | loader/pipeline.go:317-344 | and to what arities spread |
| `Reachability.ClosedIsSpread` | loader/pipeline.go:295-315 | a set between the start and what spreads, closed under the edges, is what spreads |
| `Dependency.DependencyWalk.Visit` | loader/dependency.go:13-38 | the three-colour visit keeps finished modules before their importers and justifies every failure by a missing import or a cycle |
| `Dependency.DependencyWalk.VisitImports` | loader/dependency.go:27-34 | the loop over the imports |
| `Dependency.ModuleDependencyOrder` | loader/dependency.go:5-44 | succeeds if and only if the primary module exists, every reachable import exists and no cycle is reachable; the order holds each reachable module once, after all its imports |
| `Dependency.JustifiedFailure` | loader/dependency.go:13-38 | every reported failure is a reachable missing import or a reachable cycle |
| `Dependency.CompleteOrder` | loader/dependency.go:5-44 | an order with imports first lists all that is reachable and excludes missing imports and cycles |
| `Dependency.EarlierStaysEarlier` | loader/dependency.go:36-38 | whatever an earlier module reaches is earlier too |
| `Dependency.TopoSort` | loader/dependency.go:69-104 | for any order of the nodes, succeeds if and only if the graph has no cycle; the order holds each mentioned node once, after its successors, and a failure names a node on a cycle |
| `Dependency.SortedIsAcyclic` | loader/dependency.go:94-103 | an order with successors first that lists every node leaves no room for a cycle |
| `Coverage.KeyTextInjective` | sema/validator.go:1036-1196 | the texts of different coverage keys differ |
| `Coverage.CoverageOf` | sema/validator.go:1023-1047 | the abstraction holds exactly the keys of the leaves, and is a wildcard exactly when some alternative is |
| `CoverageLaws.LiteralKeyExactly` | sema/validator.go:1185-1194 | booleans, integers and characters have a key, which means their value; texts and conversions have none |
| `Coverage.MatchCoveragePattern` | sema/validator.go:1023-1047 | the recursive loop computes that abstraction |
| `Coverage.MatchCoverageRow` | sema/validator.go:1009-1021 | a single wildcard covers every subject |
| `Coverage.MatchCoverageDomains` | sema/validator.go:1049-1089 | each domain is the subject's own keys followed by every key that an arm names, each once, for any order of the key maps |
| `CoverageLaws.DomainMeansValues` | sema/validator.go:1049-1073 | the subject's own keys mean exactly the values of its type, which are both truths for bool, the declared values of an enum and the tags of a tagged union; other types have the one key for anything |
| `Coverage.Search.Visit` | sema/validator.go:1095-1117 | the budgeted search below a node succeeds exactly when the budget holds all points below it and all of them are covered |
| `Coverage.MatchCoverageContains` | sema/validator.go:1091-1119 | an arm is covered exactly when there is a wildcard row, or it has between 1 and 65536 points and all of them are covered |
| `Coverage.MatchCoverageExhaustive` | sema/validator.go:1121-1146 | the same for the whole product, which may be empty |
| `Coverage.MatchCoverageHasWildcardRow` | sema/validator.go:1148-1159 | some row is all wildcards |
| `Coverage.MatchCoveragePointCovered` | sema/validator.go:1161-1172 | some row accepts every key of the point |
| `Coverage.ValidateMatch` | sema/validator.go:876-908 | guarded arms do not count as covering: each arm is judged against the unguarded arms before it, the match against all unguarded arms; after the first erroneous type nothing is reported |
| `CoverageLaws.SearchIsExact` | sema/validator.go:1125-1145 | the depth-first search decides a property of all points of the product |
| `CoverageLaws.MapOrderIsIrrelevant` | sema/validator.go:1079-1084 | the verdicts do not depend on the order in which key maps are read |
| `CoverageLaws.ExhaustiveIsSound` | sema/validator.go:920-922 | an exhaustive match has an unguarded arm for every tuple of values of the subjects' types |
| `CoverageLaws.ExhaustiveTakesAnArm` | codegen/irgen/irgen.go:2662-2698 | so the generated code never reaches its end, whatever the guards say |
| `CoverageLaws.UnreachableIsSound` | sema/validator.go:887-890 | an arm called unreachable matches, through its keys, only what an earlier unguarded arm matches |
| `CoverageLaws.UnreachableIsNeverTaken` | sema/validator.go:887-890 | an arm called unreachable is never taken, unless it is one that can be misjudged |
| `CoverageLaws.KeylessLiteralIsMisjudged` | sema/validator.go:1174-1196 | every arm that can be misjudged is, in the match that puts an arm of its keyed parts before it, over any number of subjects |
| `CoverageLaws.MisjudgedExactly` | sema/validator.go:887-890 | the exact condition: some match calls an arm unreachable in a run that takes it if and only if each of its patterns can match and is wild or has a key, some keyless literal of it is not covered by keyed parts, and its smallest search is within the budget |
| `CoverageLaws.SmallestHasFewest` | sema/validator.go:1049-1119 | no match has fewer points below an arm than the one with just its keyed parts before it |
| `CoverageLaws.CharacterArmIsMisjudged` | sema/validator.go:2687-2705 | on a u32 subject, an arm for 97 or 'b' after an arm for 97 is called unreachable, and is taken for 98 |
| `CoverageLaws.FiniteVerdictIsExact` | sema/validator.go:1121-1146 | over enums, tagged unions and booleans, with arms that name declared values, a match within the budget that is not called exhaustive misses some tuple of values |
| `Parser.Parser.ReadLevel` | parser/expressions.go:179-277 | the binary rungs move the cursor as the ladder's function on the remaining tokens says |
| `Parser.Parser.ReadRest` | parser/expressions.go:266-275 | the left-associative loop of a rung |
| `Parser.Parser.ReadUnary` | parser/expressions.go:279-318 | prefix operators, and the refusal of adjacent signs |
| `Parser.Parser.ReadPostfix` | parser/expressions.go:320-330 | what may follow a term |
| `Parser.Parser.ReadTerm` | parser/expressions.go:727-750 | parentheses, with newlines inside, and single-token operands |
| `Parser.Parser.ParseWholeExpression` | parser/expressions.go:16-32 | one expression between newlines, up to the end of the input |
| `ParserLaws.ReadsSpelling` | parser/expressions.go:179-318 | at every rung the parser reads the whole spelling of an expression and goes on with that rung's loop |
| `ParserLaws.LevelDerives` | parser/expressions.go:179-318 | whatever a rung reads is a spelling in the grammar, with the tree it returns |
| `ParserLaws.ParserIsGrammar` | parser/expressions.go:179-318 | the ladder accepts exactly the spellings of the grammar and returns exactly their trees |
| `ParserLaws.SpellingIsUnambiguous` | parser/expressions.go:179-318 | the same tokens are never a spelling of two expressions |
| `ParserLaws.PrintParseRoundTrip` | parser/expressions.go:179-318 | parsing a printed expression returns it and consumes exactly the printed tokens |
| `ParserLaws.PrintedIsMinimal` | parser/expressions.go:533-657 | the printer writes no parentheses that the ladder does not need |
| `ParserLaws.WholeSpellingParses` | parser/expressions.go:16-32 | a spelling between newlines parses to its tree |
| `PrecedenceLaws.TwoOperators` | parser/expressions.go:179-277 | on a ladder of tokens from || to *, two operators group to the right exactly when the second is on a tighter rung, and otherwise to the left; each token gives its own operator |
| `PrecedenceLaws.LadderIsWhole` | parser/expressions.go:179-277 | no other token is a binary operator |
| `PrecedenceLaws.SignBindsTightest` | parser/expressions.go:279-318 | the prefix signs bind tighter than every binary operator |
| `PrecedenceLaws.AdjacentSignsAreRefused` | parser/expressions.go:279-288 | ++ and -- are refused before an operand and after it |
| `PrecedenceLaws.StrayIsRefused` | parser/expressions.go:279-318 | a token that begins no expression is a syntax error |
| `Staging.Quo` | loader/staging.go:793-802 | division truncates toward zero: the remainder is smaller than the divisor and has the dividend's sign |
| `Staging.StageSelector.PrimeBindings` | loader/staging.go:144-163 | the loop ends, with the bindings of a run that no declaration can extend, for any map order; StagingLaws says what expressions evaluate to |
| `StagingLaws.ArithmeticLaws` | loader/staging.go:725-804 | 0 and 1 are neutral, subtracting undoes adding, multiplying is repeated adding, and a negated integer cancels the integer |
| `StagingLaws.SuccessorLaw` | loader/staging.go:781-821 | adding one leads to the next larger integer, with none in between |
| `StagingLaws.DivisionLaws` | loader/staging.go:793-803 | quotient and remainder make up the dividend, and the remainder is nearer to 0 than the divisor |
| `StagingLaws.RemainderSide` | loader/staging.go:793-803 | the remainder is on the side of the dividend |
| `StagingLaws.OrderIsTotal` | loader/staging.go:775-821 | exactly one of e < f, e == f and f < e is true |
| `StagingLaws.OrderIsTransitive` | loader/staging.go:805-821 | < is transitive |
| `StagingLaws.ComparisonsAgree` | loader/staging.go:805-821 | the other comparisons follow from < |
| `StagingLaws.BooleanLaws` | loader/staging.go:725-774 | true and false are neutral and absorbing for && and ||, and ! swaps them |
| `StagingLaws.OperatorsAreStrict` | loader/staging.go:756-764 | the failure of the left operand, and else of the right one, is the failure of the whole; && and || evaluate both |
| `StagingLaws.EqualityLaws` | loader/staging.go:775-780 | == is equality of values, except that an enum member equals the literal of its name from either side; != negates it |
| `StagingLaws.EqualityIsNotTransitive` | loader/staging.go:825-831 | an instance: members of two enums equal the literal of one name, and not each other |
| `StagingLaws.RefusedExactly` | loader/staging.go:765-823 | on resolved operands: which operators refuse which values, which wait for later stages, and what kind of value the others have |
| `StagingLaws.UnaryRefusedExactly` | loader/staging.go:725-747 | the same for the prefix operators |
| `StagingLaws.NameLaws` | loader/staging.go:719-724 | a constant of the target wins over a binding of its name |
| `StagingLaws.LiteralLaws` | loader/staging.go:707-718 | only the text true is true; an integer is what its text reads as, a float is its text, an enum literal is its name; anything else waits |
| `StagingLaws.NegatedTwice` | loader/staging.go:737-745 | negating the text of a float twice gives it back exactly when it does not start with two signs |
| `Staging.EvaluateIsMonotone` | loader/staging.go:702-823 | more bindings never change a resolved result or an error |
| `Staging.FinalIsLeast` | loader/staging.go:144-163 | with distinct names every such run ends in the least set of bindings closed under evaluation |
| `Staging.OrderIsIrrelevant` | loader/staging.go:144-163 | so the bindings are the same for every iteration order |
| `Staging.ConsistentFinalIsLeast` | loader/staging.go:144-163 | with repeated names too, every run ends in the least closed set of bindings when there is a closed one |
| `Staging.ConsistentOrderIsIrrelevant` | loader/staging.go:144-163 | so the order is then irrelevant as well |
| `Staging.RepeatedNamesDisagree` | loader/staging.go:144-163 | an instance: for two declarations of one name and no other, two orders end in different bindings exactly when both resolve alone, to different values |
| `RepeatedNames.ContestDisagrees` | loader/staging.go:144-163 | among any declarations, for a name that two of them declare: once a run of others reaches bindings in which both resolve, to different values, two orders end in different bindings of the name |
| `RepeatedNames.OrderDecidesExactly` | loader/staging.go:144-163 | the exact condition, when the others have distinct names: two orders end in different bindings of the name if and only if both resolve, to different values, in what the others end in |
| `RepeatedNames.LastWins` | loader/staging.go:154-159 | with any repetitions, the last declaration of a name that a run resolves gives its binding |
| `Specializations.Extraction.QueueReference` | loader/specializations.go:62-85 | an open reference is ignored, a missing template is an error, a new key is queued once |
| `Specializations.Extraction.QueueOperand` | loader/specializations.go:86-109 | the references of an initialiser are met in order |
| `Specializations.Extraction.QueueCalls` | loader/specializations.go:110-145 | concrete trait requirements are resolved, references are queued |
| `Specializations.Extraction.QueueModules` | loader/specializations.go:146-163 | all base modules are scanned, up to the first problem |
| `Specializations.Extraction.Round` | loader/specializations.go:164-200 | one request is instantiated and its calls are scanned; InstanceLaws.UnitIsItsTemplate says what the instance contains |
| `Specializations.ScanStops` | loader/specializations.go:151-163 | a problem in some part ends the scan of the whole |
| `SpecializationLaws.ScanMeets` | loader/specializations.go:62-145 | a scan serves every item it meets, keeps keys distinct, and adds only what some item demands; a problem it reports is real |
| `SpecializationLaws.Extract` | loader/specializations.go:44-210 | when the worklist ends, the units are complete; a reported problem is a real one in something demanded; and it ends within as many rounds as there are keys to demand, when they are finitely many |
| `SpecializationLaws.RoundExplores` | loader/specializations.go:164-210 | a round keeps: everything scanned is served, keys are distinct, every request is demanded |
| `SpecializationLaws.BaseCallHasUnit` | loader/specializations.go:158-162 | every closed reference in a call of a base function has an instance under its key |
| `SpecializationLaws.GlobalHasUnit` | loader/specializations.go:153-157 | so has every closed reference anywhere in a global initialiser |
| `SpecializationLaws.InstanceCallHasUnit` | loader/specializations.go:164-200 | and every closed reference in a call of an instance |
| `SpecializationLaws.KeyDecides` | loader/specializations.go:321-327 | keys are equal exactly when the template's names are equal and the arguments have the same readings, for names without separators |
| `SpecializationLaws.UnitImplements` | loader/specializations.go:62-83 | then the instance under the key of a reference is one of the template that it names, for arguments with the reading of the given ones |
| `SpecializationLaws.InstanceHasNoRequirement` | loader/specializations.go:117-133 | no concrete trait requirement is left in an instance |
| `SpecializationLaws.UnitsAreDemandedOnce` | loader/specializations.go:76-83 | each key is instantiated once, and a chain of references from a base module demands it |
| `InstanceLaws.ParameterBecomesArgument` | ir/ir.go:562-569 | where a parameter stands, the argument of the last parameter with its key comes in, and other parameters stay |
| `InstanceLaws.UnitIsItsTemplate` | ir/ir.go:560-575 | every unit has the functions and calls of its template one for one; an argument of a reference and the receiver of a requirement that are parameter i have become argument i; a concrete requirement has become the method that is stored for it |
| `InstanceLaws.UnitIsConcrete` | loader/specializations.go:62-72 | only requests without type parameters are instantiated |
| `InstanceLaws.BaseCallIsResolved` | loader/specializations.go:117-133 | in the resolved base modules, too, a concrete requirement has become its method, and everything else is unchanged |
| `InstanceLaws.RequirementFindsMethod` | loader/specializations.go:227-245 | a requirement finds exactly the method stored under the module and name of its receiver, or of what that points to; instances use the name of their generic type |
| `NativeSymbols.NativeDeclarations` | cmd/qkc/link.go:167-182 | the native names of a module: named externs with an origin, their origins, and extern globals |
| `NativeSymbols.SymbolIndex.AddModules` | cmd/qkc/link.go:97-120 | the index covers every definition and the queue starts with exactly the roots, for any map order |
| `NativeSymbols.SymbolIndex.Follow` | cmd/qkc/link.go:133-139 | defined references are queued, native ones recorded |
| `NativeSymbols.SymbolIndex.Step` | cmd/qkc/link.go:125-156 | a round of the worklist keeps its invariant and makes progress, on cyclic graphs too |
| `NativeSymbols.SymbolIndex.Drain` | cmd/qkc/link.go:124-157 | the worklist ends with what the reached definitions need |
| `NativeSymbols.VisitDefinition` | cmd/qkc/link.go:133-156 | following a definition keeps: pending and visited names are reached, and what visited ones reference is known |
| `NativeSymbols.VisitedIsReached` | cmd/qkc/link.go:124-157 | an empty queue means that every reached definition was visited |
| `NativeSymbols.ReachableNativeSymbols` | cmd/qkc/link.go:91-159 | with distinct names, the result is exactly the names that a definition reachable from the roots references, that its module declares native, and that nothing defines |
| `ArtifactFormat.U32RoundTrip` | cmd/qkc/artifact_cache.go:381-392 | reading the four bytes of a number gives it back |
| `ArtifactFormat.U32Unique` | cmd/qkc/artifact_cache.go:381-392 | four bytes are the bytes of the number they encode |
| `ArtifactFormat.FieldRoundTrip` | cmd/qkc/artifact_cache.go:394-422 | a written field is read back, with the rest left |
| `ArtifactFormat.FieldUnique` | cmd/qkc/artifact_cache.go:394-402 | what is read as a field was a field's bytes |
| `ArtifactFormat.Reader.ReadBytes` | cmd/qkc/artifact_cache.go:394-402 | the reader's cursor moves past one field or fails |
| `ArtifactFormat.LoadObjects` | cmd/qkc/artifact_cache.go:154-161 | the loop over the objects; a repeated key keeps its last object |
| `ArtifactFormat.LoadCachedArtifactAny` | cmd/qkc/artifact_cache.go:132-168 | the sequential reader computes the decoding function |
| `ArtifactFormat.StoreCachedArtifact` | cmd/qkc/artifact_cache.go:315-355 | fails exactly for an invalid hash or an oversized field, and otherwise writes the file of the sorted keys |
| `ArtifactFormat.SortedKeys` | cmd/qkc/artifact_cache.go:336-340 | the keys of the map, sorted, whatever order it yields them in |
| `ArtifactFormat.LessExactly` | cmd/qkc/artifact_cache.go:340 | the order of the keys is that of a dictionary, by bytes |
| `ArtifactFormat.StoredIsUnique` | cmd/qkc/artifact_cache.go:336-340 | so an artifact has only one file |
| `ArtifactFormat.LoadAcceptsExactly` | cmd/qkc/artifact_cache.go:132-168 | which files are accepted, and what they give, in both directions |
| `ArtifactFormat.StoreLoadRoundTrip` | cmd/qkc/artifact_cache.go:132-168 | decoding gives back what was stored exactly when there are at most 1024 objects and no empty key |
| `ArtifactFormat.StoreIsInjective` | cmd/qkc/artifact_cache.go:315-355 | different artifacts never share a file, whatever their sizes and keys |
| `ArtifactFormat.U32Layout` | cmd/qkc/artifact_cache.go:387-392 | a number is written in four bytes, the most significant one first |
| `ArtifactFormat.OneObjectLayout` | cmd/qkc/artifact_cache.go:315-355 | the file of one object, byte by byte |
| `ArtifactFormat.HexDigitExactly` | cmd/qkc/artifact_cache.go:376-379 | the digits of a hash are the hexadecimal ones, in both cases |
| `ArtifactFormat.TrailingBytesRejected` | cmd/qkc/artifact_cache.go:163-165 | an accepted file with anything after it is rejected |
| `ArtifactFormat.PrefixesRejected` | cmd/qkc/artifact_cache.go:132-168 | every strict prefix of an accepted file is rejected |
| `EvalMemory.ZeroEvalValue` | ir/eval.go:502-528 | the recursive loops build the zero value of a type |
| `EvalMemory.EvalFieldPath` | ir/eval.go:530-550 | the first field of the name in a struct, or a union step |
| `EvalMemory.FieldStepFinds` | ir/eval.go:530-550 | a step exists exactly when a field has the name, and leads to the first one, at its position and with its type |
| `EvalMemory.Memory.Alloca` | ir/eval.go:129-131 | the slot gets a new cell with the zero value; other cells are unchanged, and the memory stays well shaped |
| `EvalMemory.Memory.AddressOf` | ir/eval.go:148-153 | a pointer to the cell of a slot that has one, well typed in a well-shaped memory |
| `EvalMemory.Memory.FieldAddress` | ir/eval.go:154-164 | extends a pointer by one field, and a well-typed pointer stays well typed |
| `EvalMemory.Memory.LoadPtr` | ir/eval.go:552-567 | the walk along the path; a well-typed pointer never leaves the aggregates |
| `EvalMemory.Memory.StorePtr` | ir/eval.go:569-590 | changes one cell or nothing; a well-typed store of a well-shaped value succeeds and keeps the memory well shaped |
| `EvalMemory.ZeroHasShape` | ir/eval.go:502-528 | zero values have the shape of their type |
| `EvalMemory.ZeroReadsAsZero` | ir/eval.go:502-528 | through every chain of fields a zero value reads as the zero of the type that is reached: false, 0, 0.0 or an aggregate of them, and through a union as the bits of 0 |
| `EvalMemory.ZeroBits` | ir/eval.go:592-610 | the bits of 0 are 0 under every type |
| `EvalMemory.TypedPathIsInRange` | ir/eval.go:552-567 | a chain of fields never reports out of range, and leads to a value of its type's shape unless it enters a union |
| `EvalMemory.StoreKeepsShape` | ir/eval.go:573-590 | storing a value of the field's shape keeps the shape of the whole |
| `EvalMemory.LoadAfterStore` | ir/eval.go:552-590 | a load after a store at the same path gives the value, reinterpreted if the path ends in a union |
| `EvalMemory.StoreAffectsExactly` | ir/eval.go:552-590 | a load is unaffected by every store through another pointer exactly when the paths part before either ends or enters a union |
| `EvalMemory.TypedPathsAlign` | ir/eval.go:530-550 | chains of fields from one type agree on where unions are |
| `EvalMemory.FieldsInUnionCollide` | ir/eval.go:579-585 | two fields of a struct inside a union are one place |
| `EvalMemory.ReinterpretRoundTrip` | ir/eval.go:592-610 | an integer read through an f64 member and back is the integer again exactly when it is in the range of u64; the sign of a negative one is lost |
| `EvalMemory.NarrowRoundTrip` | ir/eval.go:601-607 | read through an f32 member, an integer comes back as the low 32 bits of its magnitude, when narrowing undoes widening |
| `EvalMemory.FloatRoundTrip` | ir/eval.go:592-610 | a float is read through a 64-bit integer member and back without loss |
| `EvalMemory.LowBitsExactly` | ir/eval.go:601 | the bits of an integer are those of its magnitude modulo 2^64 |
| `EvalMemory.MinusOneReadsBackAsOne` | ir/eval.go:601-607 | an i64 of -1 reads back as 1 |
| `EvalMemory.SizedIsBounded` | types/type.go:1001-1054 | every type that the completeness check accepts has a zero value |

## Left out

- TypeEquality.EqualsIsCanon: stated without references to transparent aliases of other structure, on which equality is not symmetric (TypeEquality.ReferenceIsSymmetricExactly), and without nominal types around a trait, which the compiler does not build (sema/aliases.go:51-57); references carry the name of their declaration, and a dangling reference one that no live alias leads to.
- InferenceLaws.FoldSummarises: stated for actuals on which equality is an equivalence, references to nominal types and traits included; InferenceLaws.ReferenceOrderIsIrrelevantExactly shows that the law fails on a reference to any other structure; the target of a reference is no reference itself, since an alias that only names another one under resolution is never referred to (sema/aliases.go:22-31).
- InferenceLaws.SameEventsSameOutcome: the same.
- InferenceLaws.PermutationInvariant: the same, and for calls without typed variadics, whose last pattern depends on the position.
- ResultInference.ShapedCallInfers: the expected result resembles its pattern at the places that the pass enters.
- InferenceLaws.MatchingIsComplete: stated for the same patterns as InferenceLaws.MatchingIsSound; equal instances are assumed to have equal names, as the compiler derives them from the arguments.
- InferenceLaws.MatchingIsSound: stated for primitive, enum, parameter, nominal, pointer, slice, array and function patterns, up to the names that equality compares.
- TraitFlow.NarrowRuntimeTraitCastCandidates: concrete types are compared by equality, so they are the types of InferenceLaws.FoldSummarises; the list of cast nodes is an input, since the syntax walk is not part of this model.
- TraitFlow.Flow.AddPossibleType: the same types; membership is by equality.
- TraitFlow.Flow.AddPossibleTraitType: the same types.
- TraitFlow.Flow.Propagate: the same types.
- TraitFlow.FilterCandidates: the same types.
- Completeness.CompleteExactlyWhenFinite: needs one definition for each identity, as the path set of identities does.
- Propagation.PropagateTypedVariadicArities: arities are natural numbers.
- CoverageLaws.MisjudgedExactly: range patterns at one source position are the same range.
- CoverageLaws.FiniteVerdictIsExact: for integers and other open subjects only the exactness on symbolic points is stated (CoverageLaws.SearchIsExact); two declared texts of one enum or tagged union are different numbers.
- Coverage.ValidateMatch: the typing of subjects, guards and bodies is not part of this model; which of them are erroneous is an input.
- Parser.Parser.ReadPostfix: calls, indexing, slices, field access, casts and struct literals after a term end the model's reading.
- Parser.Parser.ReadTerm: lambdas, blocks, `if`, `when`, `match`, slice literals and builtins at the start of a term end the model's reading.
- Parser.Parser.ReadLevel: the nine binary rungs are one method over the rung's number; in the source they are nine functions with the same loop.
- Staging.StageSelector.PrimeBindings: evaluation reads the target constants and the value of an integer text from its inputs; the later stages that lower unresolved expressions are not part of this model.
- Specializations.Extraction.Round: functions are values made of call instructions, so the rewriting of calls in place and the renaming of mangled symbols are not captured; a call refers to an instance by its request key.
- SpecializationLaws.Extract: a bound on the rounds stands in for a loop that need not end, since polymorphic recursion can demand new keys for ever.
- SpecializationLaws.UnitImplements: that the names in the arguments of an instance hold no separators is a condition; which names the tokeniser admits is not part of this model.
- RepeatedNames.OrderDecidesExactly: one name is declared twice; with more repeated names only RepeatedNames.ContestDisagrees and RepeatedNames.LastWins are stated.
- NativeSymbols.ReachableNativeSymbols: definitions have distinct names, as mangled symbols do; the names referenced by an instruction are an input.
- ArtifactFormat.StoreCachedArtifact: temporary files, renaming and the reuse of an existing file are input and output; SHA-256 and the build snapshot file are not modelled.
- EvalMemory.Memory.StorePtr: a store replaces the tree of a cell; aggregates that several values share, and the shapes of values read out of a union, are not modelled. Floats are bit patterns, and narrowing and widening between them are parameters.
- Alias cycles: where following transparent aliases meets no structure, and the source would not end, the model's `Underlying` answers with the reference itself, and `Equals` with false.
- A nil receiver in type equality, which would panic, equals nil alone.
- BuildDependencyGraph (loader/dependency.go:45-59): no caller uses it.
- Implicit coercion and casts between types, layout, LLVM emission, linking, the tokeniser, name resolution and attribution.
- Locations, diagnostic texts and warnings: an error is a failure value.
