# InfEngine trait solver, modelled in Dafny

InfEngine decides whether a set of goals holds under a set of clauses. The goals are:

- equations between type terms;
- "this type implements this trait" goals;
- the current engine also has "normalise this associated-type alias" goals.

The clauses are `impl` blocks, associated-type declarations and alias rules. A solver keeps two kinds of state:

- what is still to prove: its pending goals;
- what it has committed to: the bindings found so far, the instantiation chosen for each goal slot, and the proof chains.

Search works like this:

1. The solver solves its equations by unification.
2. It picks the next goal.
3. It builds one candidate solver for every clause whose head unifies with that goal.
4. It runs a depth-first search over those candidates.

The repository holds two snapshots of the engine, and both are modelled here.

- **The current engine.** It has:
  - terms: `App`, `FreeVar`, `BoundVar`, `Const`, `ConstBoundVar`, `Alias` and `IrAlias`, with their respective `Any`, `Replace` and `Descendants` walks;
  - the unifier `Term_Match.cs` and the binding record `TermMatch`;
  - goal records with their `Substitute`, `IsNonGeneric` and `CountFreeVars`;
  - the proof-chain arena;
  - the iteration counter;
  - the solver partials for equation goals, impl goals and norm goals;
  - `SolverDriver`, the explicit-stack search.
- **The older engine.** It has:
  - `Any` and `Replace`, which give the same results as the current ones, and a shallower `Descendants` that lists only the immediate arguments;
  - its own unifier, which works on a reversed argument list and merges as it goes;
  - `ImplGoal.IsNonGeneric` and `CountFreeVars`;
  - `ImplClause.Equals`;
  - the solver with `RetrieveImplGoal`, `HandleEqGoals` and the `BuildCandidate` family;
  - the recursive search `InternalRun` → `HandleImplGoals` → candidates.

## How the model is built

- Terms, goals and clauses are datatypes. Record `Substitute` methods become functions on them.
- Code that loops or mutates becomes a method or a class:
  - unifier loops, rewrite loops and dictionary-building loops are methods with `while` loops;
  - `ProofChain`, `IterationCount`, `SolverDriver` and both `Solver` classes are classes.
- Each method is proved against a specification function on values. The property the source promises is then proved about that function.
- The process-wide counters become `FreshNames.NameSeed` objects:
  - `FreeVar._seed` gives names `?1`, `?2`, …;
  - the goal slot counter gives names `$g1`, `$g2`, ….
- Code that is not part of this model, or does not appear in full, becomes a parameter of the model. Each such parameter is listed under "Left out".
- Loops that only end because the real search ends carry a `fuel` bound. These are the search, the equation drain and the driver.

## Model

| member | source | states |
|---|---|---|
| Terms.AnyOfArgs | InfEngine/Engine/Terms/App.cs:34-51 | `App.Any` over the arguments holds iff some argument's walk holds |
| Terms.ReplaceArgs | InfEngine/Engine/Terms/App.cs:53-62 | `App.Replace` keeps the arity and replaces each argument by its own walk |
| Terms.Descendants | InfEngine/Engine/Terms/App.cs:64-78 | every node `Descendants` yields is of the requested kind |
| Terms.DescendantsAndSelf | InfEngine/Engine/Term.cs:10-21 | every node yielded is of the requested kind |
| Terms.DescendantsOfArgs | InfEngine/Engine/Terms/App.cs:64-78 | a node is yielded for the arguments iff it is yielded by some argument's `DescendantsAndSelf` |
| Terms.FreeVarsOfArgs | InfEngine/Engine/Terms/App.cs:34-51 | a variable occurs in the arguments iff it occurs in one of them |
| Terms.BoundVarsOfArgs | InfEngine/Engine/Terms/App.cs:34-51 | a BoundVar occurs in the arguments iff it occurs in one of them |
| Terms.ArgsEqual | InfEngine/Engine/Terms/App.cs:15 | `SequenceEqual` of argument lists: same length, and each pair equal with the receiver side named by `flip`, which `App.Equals` turns over since `other.Args` comes first |
| TermFacts.AnyViaDescendants | InfEngine/Engine/Term.cs:5-21 | `Any(pred)` holds iff some node of `DescendantsAndSelf` satisfies `pred` |
| TermFacts.AnyOfKindIffSomeNode | InfEngine/Engine/Term.cs:5 | `Any<T>()` holds iff `DescendantsAndSelf<T>` is non-empty |
| TermFacts.LeafWalks | InfEngine/Engine/Terms/FreeVar.cs:11-34 | on a leaf (`FreeVar`, `BoundVar`, `Const`, `ConstBoundVar`) the walks visit only the node itself, and `Replace` yields `repl`'s answer or the node |
| TermFacts.ReplaceNoHit | InfEngine/Engine/Terms/App.cs:53-62 | when `repl` declines every node of the kind, `Replace` returns the term unchanged |
| TermFacts.ReplaceNeverIsIdentity | InfEngine/Engine/Terms/IrAlias.cs:29-39 | `Replace` with a function that never answers is the identity |
| TermFacts.FreeVarsViaDescendants | InfEngine/Engine/Term.cs:10-21 | a variable occurs in a term iff `DescendantsAndSelf<FreeVar>` yields it; for a non-variable term, iff `Descendants` does |
| TermFacts.OccursIffFreeVar | InfEngine/Engine/Terms/Term_Match.cs:38-46 | the occurs check `Any<FreeVar>(v => v == x)` holds iff `x` occurs in the term |
| TermFacts.AnyFreeVarIffFreeVars | InfEngine/Engine/Goals/NormGoal.cs:12-18 | `Any<FreeVar>()` holds iff the term has a free variable |
| TermFacts.TermEqualsReflexive | InfEngine/Engine/Terms/Const.cs:81-104 | record equality with `ConstName.Equals` inside is reflexive, whichever side is the receiver |
| TermFacts.TermEqualsWithoutConsts | InfEngine/Engine/Terms/App.cs:15 | on terms without constants, record equality is structural equality, whichever side is the receiver |
| TermFacts.TermEqualsIdentifiesWidths | InfEngine/Engine/Terms/Const.cs:94-103 | a `u8` 5 and a `u64` 5 are equal terms although they differ as values |
| TermFacts.EqualsAtSwap | InfEngine/Engine/Terms/App.cs:15 | walking either side of an equality test gives the same answer once the receiver is named: `x.Equals(y)` read from `x` equals it read from `y` |
| TermFacts.AppEquals | InfEngine/Engine/Terms/App.cs:15 | two Apps are equal iff heads and arities agree and each argument of `other` equals this App's argument at the same position, `other`'s argument being the receiver |
| TermFacts.ArgumentReceiverIsOther | InfEngine/Engine/Terms/App.cs:15 | `f<1u8>.Equals(f<true>)` is false, because `true.Equals(1u8)` needs the `bool` tag, while `f<true>.Equals(f<1u8>)` is true |
| Substitution.SubstituteArgs | InfEngine/Engine/Term.cs:23-26 | `Substitute` keeps the arity and substitutes argument by argument |
| Substitution.SubstituteShape | InfEngine/Engine/Term.cs:23-26 | `Substitute(FreeVar map)` maps a bound variable to its value, keeps an unbound one, rebuilds `App`/`Alias`/`IrAlias` and leaves the other leaves alone |
| Substitution.SubstituteBoundShape | InfEngine/Engine/Term.cs:28-31 | `Substitute(BoundVar map)` does the same for BoundVars |
| Substitution.SubstituteUnmapped | InfEngine/Engine/Term.cs:23-26 | a substitution for none of a term's variables leaves it unchanged |
| Substitution.SubstituteBoundUnmapped | InfEngine/Engine/Term.cs:28-31 | a BoundVar substitution for none of a term's BoundVars leaves it unchanged |
| Substitution.FreeVarsOfSubstitute | InfEngine/Engine/Term.cs:23-26 | the variables after substitution are exactly the unbound variables plus those the values of bound variables bring in |
| Substitution.SubstituteIdempotent | InfEngine/Engine/Term.cs:33-36 | under an idempotent binding map, substituting removes every bound variable and substituting twice equals once |
| Substitution.SubstituteCompose | InfEngine/Engine/Term.cs:23-26 | substituting with `m1` and then `m2` equals substituting with their composition |
| Substitution.SubstituteSize | InfEngine/Engine/Term.cs:23-26 | substitution never makes a term smaller |
| Consts.TwosComplementRoundTrip | InfEngine/Engine/Terms/Const.cs:63-79 | signed factories store a 128-bit two's complement: encoding and decoding are mutually inverse, and the sign is the top bit |
| Consts.FactoriesKeepValue | InfEngine/Engine/Terms/Const.cs:63-79 | every integer factory stores a value in its width so that it reads back unchanged |
| Consts.IntegerEqualsIsValueEquality | InfEngine/Engine/Terms/Const.cs:94-103 | between integer-typed constants `Equals` is equality of the mathematical values, whatever the widths and signs |
| Consts.FactoryEqualityExamples | InfEngine/Engine/Terms/Const.cs:94-103 | `5u8 == 5u64`, `-1i8 == -1i64`, `7i32 == 7u16`, and `-1i8 != u128::MAX`, in both directions |
| Consts.TagExactReceiver | InfEngine/Engine/Terms/Const.cs:83-92 | for a receiver of a tag-exact type (`bool`, the three char kinds, names) `Equals` requires the same tag and the same payload |
| Consts.EqualsReflexive | InfEngine/Engine/Terms/Const.cs:81-104 | every constant equals itself |
| Consts.EqualsNotSymmetric | InfEngine/Engine/Terms/Const.cs:81-104 | `1u8.Equals(true)` holds but `true.Equals(1u8)` does not |
| Consts.OperatorsAgree | InfEngine/Engine/Terms/Const.cs:117-149 | `==`, `!=` and `Equals(object)` agree with `Equals(ConstName)`; `null` and other objects are unequal |
| Clauses.SubstituteBoundValues | InfEngine/Engine/Solver_ImplGoals.cs:96-126 | substituting the clause parameters into associated-type values keeps the keys and substitutes each value |
| Clauses.SubstituteConstraint | InfEngine/Engine/Solver_ImplGoals.cs:96-112 | `ImplConstraint.Substitute` keeps the associated-type names of the constraint |
| Clauses.SubstituteConstraintUnmapped | InfEngine/Engine/Solver_ImplGoals.cs:96-112 | a substitution for none of a constraint's parameters leaves it unchanged |
| EqGoals.Substitute | InfEngine/Engine/Goals/EqGoal.cs:7 | both sides are substituted |
| EqGoals.SubstituteEmpty | InfEngine/Engine/Goals/EqGoal.cs:7 | the empty substitution leaves the goal unchanged |
| EqGoals.SubstituteIdempotent | InfEngine/Engine/Goals/EqGoal.cs:7 | under idempotent bindings no bound variable is left, and a second substitution changes nothing |
| EqGoals.SubstituteAll | InfEngine/Engine/Solver_EqGoals.cs:22-24 | rewriting a goal list substitutes each goal in place |
| ImplGoals.SubstituteAssoc | InfEngine/Engine/Goals/ImplGoal.cs:11-15 | the associated-type map keeps its keys and each value is substituted |
| ImplGoals.Substitute | InfEngine/Engine/Goals/ImplGoal.cs:11-15 | the slot name and the associated-type names survive substitution |
| ImplGoals.SubstituteEmpty | InfEngine/Engine/Goals/ImplGoal.cs:11-15 | the empty match leaves the goal unchanged |
| ImplGoals.SubstituteIdempotent | InfEngine/Engine/Goals/ImplGoal.cs:11-15 | under idempotent bindings the goal loses every bound variable, and a second substitution changes nothing |
| ImplGoals.IsNonGeneric | InfEngine/Engine/Goals/ImplGoal.cs:17-32 | the method answers true iff neither target, trait nor any associated value has a free variable |
| ImplGoals.DescendantNames | InfEngine/Engine/Goals/ImplGoal.cs:34-44 | the names `Descendants<FreeVar>` yields are the variables strictly inside the term, with a bare variable counting as none |
| ImplGoals.UnionDescendants | InfEngine/Engine/Goals/ImplGoal.cs:34-44 | the `UnionWith` loop adds exactly those names |
| ImplGoals.AssocStrictVars | InfEngine/Engine/Goals/ImplGoal.cs:34-44 | each associated-type name maps to the variables strictly inside its value |
| ImplGoals.CountFreeVars | InfEngine/Engine/Goals/ImplGoal.cs:34-44 | the count is the number of distinct variables strictly inside target, trait and associated values |
| ImplGoals.NonGenericCountsNone | InfEngine/Engine/Goals/ImplGoal.cs:17-44 | a non-generic goal counts zero variables |
| ImplGoals.CountWithoutBareVars | InfEngine/Engine/Goals/ImplGoal.cs:17-44 | when no component is a bare variable, the counted variables are all the goal's variables, so count zero iff non-generic |
| ImplGoals.BareTargetNotCounted | InfEngine/Engine/Goals/ImplGoal.cs:34-44 | the goal `?a: Eq` is generic but counts zero variables |
| NormGoals.Substitute | InfEngine/Engine/Goals/NormGoal.cs:7-10 | alias name and result variable survive; target and trait are substituted |
| NormGoals.SubstituteEmpty | InfEngine/Engine/Goals/NormGoal.cs:7-10 | the empty match leaves the goal unchanged |
| NormGoals.IsNonGeneric | InfEngine/Engine/Goals/NormGoal.cs:12-18 | true iff the alias term has no free variable |
| NormGoals.DescendantNames | InfEngine/Engine/Goals/NormGoal.cs:20-24 | on a non-variable term the names yielded are its free variables |
| NormGoals.CountFreeVars | InfEngine/Engine/Goals/NormGoal.cs:20-24 | the count is the number of distinct variables of the alias |
| NormGoals.NonGenericIffCountZero | InfEngine/Engine/Goals/NormGoal.cs:12-24 | a norm goal is non-generic iff it counts zero variables |
| NormGoals.SubstituteIdempotent | InfEngine/Engine/Goals/NormGoal.cs:7-10 | under idempotent bindings a second substitution changes nothing |
| Instantiations.Substitute | InfEngine/Engine/Instatiation.cs:7-10 | the impl name and the constraint slots survive; each variable is substituted in place |
| Instantiations.SubstituteEmpty | InfEngine/Engine/Instatiation.cs:7-10 | the empty match leaves the instantiation unchanged |
| ProvenGoals.SubstituteArgs | InfEngine/Engine/Goals/ProvenGoal.cs:10-13 | the argument map keeps its keys and each value is substituted |
| ProvenGoals.SubstituteArgsEmpty | InfEngine/Engine/Goals/ProvenGoal.cs:10-13 | the empty match leaves the arguments unchanged |
| ProvenGoals.Substitute | InfEngine/Engine/Goals/ProvenGoal.cs:10-13 | the clause and the argument keys survive substitution |
| ProvenGoals.SubstituteEmpty | InfEngine/Engine/Goals/ProvenGoal.cs:10-13 | the empty match leaves the record unchanged |
| ProvenGoals.SubstituteReuse | InfEngine/Engine/Goals/ProvenGoal.cs:21-25 | the slot name survives substitution |
| ProvenGoals.SubstituteReuseEmpty | InfEngine/Engine/Goals/ProvenGoal.cs:21-25 | the empty match leaves the record unchanged |
| ProvenGoals.SubstituteProvenImpl | InfEngine/Engine/Goals/ProvenImplGoal.cs:14-20 | clause, chain, slot and argument keys survive substitution |
| ProvenGoals.SubstituteProvenImplEmpty | InfEngine/Engine/Goals/ProvenImplGoal.cs:14-20 | the empty match leaves the record unchanged |
| ProofChains.Chain | InfEngine/Engine/Goals/ProofChain.cs:7-18 | the chain of a node contains the node and only nodes created no later than it |
| ProofChains.ChainNodesReachable | InfEngine/Engine/Goals/ProofChain.cs:7-18 | every node of the chain is reached by following parents some number of times |
| ProofChains.ReachableInChain | InfEngine/Engine/Goals/ProofChain.cs:7-18 | every node reached by following parents is in the chain |
| ProofChains.ChainIsReachable | InfEngine/Engine/Goals/ProofChain.cs:7-18 | `GetChainLink` is exactly the set of ancestors, the node included |
| ProofChains.ChainAppend | InfEngine/Engine/Goals/ProofChain.cs:3-5 | creating a node leaves the chain of every existing node unchanged |
| ProofChains.ProofChainArena.constructor | InfEngine/Engine/Goals/ProofChain.cs:3-5 | an empty arena |
| ProofChains.ProofChainArena.New | InfEngine/Engine/Goals/ProofChain.cs:3-5 | a new node with the given parent, numbered after every existing node |
| ProofChains.ProofChainArena.Parent | InfEngine/Engine/Goals/ProofChain.cs:5 | a parent was created before its child |
| ProofChains.ProofChainArena.GetChainLink | InfEngine/Engine/Goals/ProofChain.cs:7-18 | the walk up the parents returns the node's chain |
| IterationCounts.Inc32 | InfEngine/Engine/Solver.IterationCount.cs:9-12 | `_iterations++` stays a 32-bit integer |
| IterationCounts.After | InfEngine/Engine/Solver.IterationCount.cs:9-12 | `k` increments stay a 32-bit integer |
| IterationCounts.Inc32Adds | InfEngine/Engine/Solver.IterationCount.cs:9-12 | an increment adds one, except at `int.MaxValue`, where it wraps to `int.MinValue` |
| IterationCounts.AfterFromZero | InfEngine/Engine/Solver.IterationCount.cs:9-19 | from zero, `k` increments count `k` while no wrap-around happens |
| IterationCounts.WrapsAtMax | InfEngine/Engine/Solver.IterationCount.cs:9-17 | after `int.MaxValue + 1` increments the counter is negative again, so `Overflown` no longer holds |
| IterationCounts.OverflownReached | InfEngine/Engine/Solver.IterationCount.cs:14-17 | for a bound below `int.MaxValue`, `Overflown` holds after more than `bound` increments, up to `int.MaxValue` of them |
| IterationCounts.IterationCount.constructor | InfEngine/Engine/Solver.IterationCount.cs:7 | the counter starts at zero |
| IterationCounts.IterationCount.Increment | InfEngine/Engine/Solver.IterationCount.cs:9-12 | the counter takes the wrapped increment |
| IterationCounts.IterationCount.Overflown | InfEngine/Engine/Solver.IterationCount.cs:14-17 | true iff the counter exceeds the bound |
| IterationCounts.IterationCount.Count | InfEngine/Engine/Solver.IterationCount.cs:19 | the current counter |
| FreshNames.Digit | InfEngine/Engine/Terms/FreeVar.cs:7 | a decimal digit of a fresh name |
| FreshNames.Decimal | InfEngine/Engine/Terms/FreeVar.cs:7 | the decimal rendering of a counter is non-empty and all digits |
| FreshNames.DecimalInjective | InfEngine/Engine/Terms/FreeVar.cs:7 | distinct counters render differently |
| FreshNames.FreshNamesDistinct | InfEngine/Engine/Terms/FreeVar.cs:5-7 | two names from distinct counter values differ |
| FreshNames.NameSeed.constructor | InfEngine/Engine/Terms/FreeVar.cs:5 | a counter at zero, with nothing issued |
| FreshNames.NameSeed.Next | InfEngine/Engine/Terms/FreeVar.cs:7 | increments the counter and returns a name never issued before |
| FreshNames.NewFreeVar | InfEngine/Engine/Terms/FreeVar.cs:7 | `FreeVar.New()` returns `?n` for the incremented counter, a name never used before |
| TermMatches.EmptyFacts | InfEngine/Engine/Terms/TermMatch.cs:9-11 | `Empty` has no bindings and no late goals; `IsEmpty` holds iff nothing is bound |
| TermMatches.PurgeGoals | InfEngine/Engine/Terms/TermMatch.cs:150 | keeps the bindings and drops every late goal |
| TermMatches.SubstituteMatchFacts | InfEngine/Engine/Term.cs:33-36 | `Substitute(TermMatch)` reads only the bindings, and the empty match is the identity |
| TermMatches.Merge | InfEngine/Engine/Terms/TermMatch.cs:134-148 | as written: the merged bindings are exactly `other`'s, after both loops; the late goals are concatenated |
| TermMatches.MergeCorrected | InfEngine/Engine/Terms/TermMatch.cs:134-148 | corrected: `other`'s bindings, plus each receiver binding rewritten by `other`; the late goals are concatenated |
| TermMatches.MergedComposes | InfEngine/Engine/Terms/TermMatch.cs:134-148 | for disjoint keys, substituting with the merged bindings equals substituting with the receiver and then with `other` |
| TermMatches.MergedIdempotent | InfEngine/Engine/Solver_EqGoals.cs:16-24 | merging idempotent bindings whose values avoid the receiver's keys gives idempotent bindings |
| TermMatches.MergeAsWrittenLosesBindings | InfEngine/Engine/Terms/TermMatch.cs:137-140 | receiver `?a := str` merged with `?b := bool`: `?a` is missing from the as-written merge but kept by the corrected one |
| EqualitySets.ConnectedSelf | InfEngine/Engine/Terms/TermMatch.cs:17-71 | each variable is connected to itself |
| EqualitySets.ConnectedLink | InfEngine/Engine/Terms/TermMatch.cs:21-53 | a binding connects its two variables, in both directions |
| EqualitySets.PathAppend | InfEngine/Engine/Terms/TermMatch.cs:17-71 | two paths that meet join into one |
| EqualitySets.PathReversed | InfEngine/Engine/Terms/TermMatch.cs:17-71 | a path reversed connects its ends the other way round |
| EqualitySets.ConnectedSymmetric | InfEngine/Engine/Terms/TermMatch.cs:17-71 | connectedness is symmetric |
| EqualitySets.ConnectedTransitive | InfEngine/Engine/Terms/TermMatch.cs:17-71 | connectedness is transitive |
| EqualitySets.AddSelf | InfEngine/Engine/Terms/TermMatch.cs:23-27 | `TryAdd(x, {x})`: a new key gets its singleton, and existing sets, the class structure and exactness are kept |
| EqualitySets.UnionConnected | InfEngine/Engine/Terms/TermMatch.cs:36-51 | members of two united sets of connected owners are connected to one another |
| EqualitySets.Unite | InfEngine/Engine/Terms/TermMatch.cs:36-51 | the union loop sets every member of either class to the union and keeps the class structure; it stays exact when the owners are connected |
| EqualitySets.UnionIsClass | InfEngine/Engine/Terms/TermMatch.cs:36-51 | the union of two classes is closed: each member's class lies inside it |
| EqualitySets.UnitedClasses | InfEngine/Engine/Terms/TermMatch.cs:36-51 | rewriting every member of two classes to their union gives classes again |
| EqualitySets.UnitedExact | InfEngine/Engine/Terms/TermMatch.cs:36-51 | that union keeps each set within the owner's connected component |
| EqualitySets.DescendantVarsExtend | InfEngine/Engine/Terms/TermMatch.cs:55-68 | the variables found under one more binding are those of its value's `Descendants` |
| EqualitySets.VarNamesSnoc | InfEngine/Engine/Terms/TermMatch.cs:55-68 | names of a prefix grow by one variable per step |
| EqualitySets.AddsSingletonsKeeps | InfEngine/Engine/Terms/TermMatch.cs:55-68 | adding only new singletons keeps the classes and their exactness |
| EqualitySets.AddVars | InfEngine/Engine/Terms/TermMatch.cs:57-67 | the inner loop adds every listed variable and only new singletons |
| EqualitySets.AddDescendantVars | InfEngine/Engine/Terms/TermMatch.cs:55-68 | the second loop adds each variable inside a bound value, as a singleton when new |
| EqualitySets.EqTargetsExtend | InfEngine/Engine/Terms/TermMatch.cs:21-53 | one more binding adds its target name when the value is a variable |
| EqualitySets.EqualityKeys | InfEngine/Engine/Terms/TermMatch.cs:17-71 | the bare variable values plus the nested value variables are all the variables of the values |
| EqualitySets.DescendantVarsAreValueVars | InfEngine/Engine/Terms/TermMatch.cs:55-68 | nested value variables are value variables |
| EqualitySets.AddEquality | InfEngine/Engine/Terms/TermMatch.cs:21-53 | one turn of the first loop adds the key (and a bare-variable value), puts the value in the key's class, and keeps classes and exactness |
| EqualitySets.ToEqualitySet | InfEngine/Engine/Terms/TermMatch.cs:17-71 | keys are the bound variables and every variable of a value; the sets are classes; `?x := ?y` puts `y` in `x`'s class; each class holds only variables linked through bare-variable bindings |
| EqualitySets.EqualityClasses | InfEngine/Engine/Terms/TermMatch.cs:21-53 | the first loop yields exact classes over the bound variables and their bare-variable values |
| EqualitySets.RelTargetsAll | InfEngine/Engine/Terms/TermMatch.cs:78-132 | over all keys, the related targets are all value variables |
| EqualitySets.RelTargetsExtend | InfEngine/Engine/Terms/TermMatch.cs:82-114 | one more binding adds the free variables of its value |
| EqualitySets.VarNamesOfDescendantsAndSelf | InfEngine/Engine/Terms/TermMatch.cs:97-113 | the names `DescendantsAndSelf<FreeVar>` yields are the term's free variables |
| EqualitySets.RelatedDescendants | InfEngine/Engine/Terms/TermMatch.cs:97-113 | each variable the inner loop visits is linked to the key |
| EqualitySets.UniteOne | InfEngine/Engine/Terms/TermMatch.cs:97-113 | one inner turn puts the visited variable in the key's class, keeping classes and exactness |
| EqualitySets.UniteWithAll | InfEngine/Engine/Terms/TermMatch.cs:97-113 | the inner loop puts every visited variable in the key's class |
| EqualitySets.AddRelated | InfEngine/Engine/Terms/TermMatch.cs:82-114 | one outer turn relates the key with every variable of its value |
| EqualitySets.ToRelatedSet | InfEngine/Engine/Terms/TermMatch.cs:78-132 | keys are the bound and value variables; the sets are classes; each key's class holds every variable of its value; each class holds only variables linked through bindings |
| EqualitySets.RelatedClasses | InfEngine/Engine/Terms/TermMatch.cs:82-114 | the first loop yields exact related classes covering every value's variables |
| Unifier.StackConcat | InfEngine/Engine/Terms/Term_Match.cs:157-160 | variables and size of a concatenated worklist are the sums of the parts |
| Unifier.Zip | InfEngine/Engine/Terms/Term_Match.cs:157-160 | pairs of arguments, position by position |
| Unifier.ZipMeasure | InfEngine/Engine/Terms/Term_Match.cs:157-160 | the pushed pairs carry exactly the arguments' variables and sizes |
| Unifier.SubsetCard | InfEngine/Engine/Terms/Term_Match.cs:18-208 | a subset is no larger, and a strict subset is smaller |
| Unifier.SubstPairs | InfEngine/Engine/Terms/Term_Match.cs:61-82 | rewriting the pending pairs substitutes both sides of each |
| Unifier.SubstituteValues | InfEngine/Engine/Terms/Term_Match.cs:48-59 | rewriting the result keeps its keys |
| Unifier.SubstituteOneVars | InfEngine/Engine/Terms/Term_Match.cs:48-82 | substituting `?x := v` removes `x` and adds at most `v`'s variables |
| Unifier.SubstPairsVars | InfEngine/Engine/Terms/Term_Match.cs:61-82 | the same for the pending pairs |
| Unifier.SubstPairsSelf | InfEngine/Engine/Terms/Term_Match.cs:116-137 | substituting `?x := ?x` leaves the pairs unchanged |
| Unifier.SubstituteSelf | InfEngine/Engine/Terms/Term_Match.cs:116-137 | substituting `?x := ?x` leaves a term unchanged |
| Unifier.BindProgress | InfEngine/Engine/Terms/Term_Match.cs:48-84 | binding a variable that passed the occurs check removes it from the worklist |
| Unifier.StepProgress | InfEngine/Engine/Terms/Term_Match.cs:18-208 | every turn of the `while` loop, in either variant, removes a variable or shrinks the worklist, so the loop ends |
| UnifierFacts.ReplaceAgree | InfEngine/Engine/Terms/Term_Match.cs:48-82 | replacing `?x` by something a solution equates with `?x` does not change that solution's result |
| UnifierFacts.BindIdempotent | InfEngine/Engine/Terms/Term_Match.cs:48-84 | binding a fresh variable, after rewriting the result with it, keeps the result idempotent |
| UnifierFacts.BindValueDisjoint | InfEngine/Engine/Terms/Term_Match.cs:48-59 | rewritten result values avoid the bound keys |
| UnifierFacts.BindKeepsInv | InfEngine/Engine/Terms/Term_Match.cs:31-85 | a binding step keeps the result idempotent and disjoint from the pending variables |
| UnifierFacts.StepKeepsInv | InfEngine/Engine/Terms/Term_Match.cs:18-208 | every corrected step keeps that invariant |
| UnifierFacts.SolveKeepsInv | InfEngine/Engine/Terms/Term_Match.cs:18-208 | the corrected unifier returns idempotent bindings |
| UnifierFacts.StepLateGrows | InfEngine/Engine/Terms/Term_Match.cs:141-144 | a step only appends late goals |
| UnifierFacts.SolveLateGrows | InfEngine/Engine/Terms/Term_Match.cs:141-144 | the loop only appends late goals |
| UnifierFacts.BindSound | InfEngine/Engine/Terms/Term_Match.cs:31-85 | a solution of the state after binding `?x := t` equates `?x` and `t` and solves the state before |
| UnifierFacts.UnifiesSplit | InfEngine/Engine/Terms/Term_Match.cs:157-160 | a concatenation is solved iff both parts are |
| UnifierFacts.AppUnifies | InfEngine/Engine/Terms/Term_Match.cs:145-161 | solving the argument pairs of two `App`s with the same head and arity equates them |
| UnifierFacts.IrAliasUnifies | InfEngine/Engine/Terms/Term_Match.cs:162-176 | solving target and trait pairs of two `IrAlias`es with the same name equates them |
| UnifierFacts.StepSound | InfEngine/Engine/Terms/Term_Match.cs:18-208 | whatever solves the state after a corrected step, its late goals included, solves the state before |
| UnifierFacts.StepSoundBinding | InfEngine/Engine/Terms/Term_Match.cs:31-140 | the same for the two variable branches |
| UnifierFacts.StepSoundStructural | InfEngine/Engine/Terms/Term_Match.cs:141-197 | the same for the alias, `App`, `IrAlias` and `BoundVar` branches |
| UnifierFacts.SolveSound | InfEngine/Engine/Terms/Term_Match.cs:18-208 | the bindings returned, once the late goals hold, solve the starting worklist |
| UnifierFacts.MatchSound | InfEngine/Engine/Terms/Term_Match.cs:8-11 | corrected `TryMatch`: when the late goals hold, the bindings make both sides equal |
| UnifierFacts.MatchIdempotent | InfEngine/Engine/Terms/Term_Match.cs:200-207 | corrected `TryMatch` returns idempotent bindings, and late goals already rewritten with them |
| UnifierFacts.BindWithin | InfEngine/Engine/Terms/Term_Match.cs:48-84 | binding introduces no variable from outside the terms |
| UnifierFacts.StepWithin | InfEngine/Engine/Terms/Term_Match.cs:18-208 | no step introduces a variable from outside |
| UnifierFacts.SolveWithin | InfEngine/Engine/Terms/Term_Match.cs:18-208 | the result mentions only variables from the worklist |
| UnifierFacts.MatchVars | InfEngine/Engine/Terms/Term_Match.cs:8-11 | in either variant, the bindings mention only variables of the two terms |
| UnifierFacts.OccursCheckFails | InfEngine/Engine/Terms/Term_Match.cs:38-46 | `?x` never matches a larger term containing `?x`, on either side |
| UnifierFacts.ConstNeverMatches | InfEngine/Engine/Terms/Term_Match.cs:189-197 | a `Const` or `ConstBoundVar` does not even match itself: it falls through to the failure branch |
| UnifierFacts.StepSame | InfEngine/Engine/Terms/Term_Match.cs:33-36 | a step on pairs of identical constant-free terms succeeds without binding anything |
| UnifierFacts.SolveSame | InfEngine/Engine/Terms/Term_Match.cs:18-208 | the loop on such pairs succeeds without bindings, leaving only trivial late goals |
| UnifierFacts.MatchSelf | InfEngine/Engine/Terms/Term_Match.cs:8-11 | a constant-free term matches itself with no bindings, and each late goal has equal sides |
| TermMatching.RewriteValues | InfEngine/Engine/Terms/Term_Match.cs:48-59 | the result-rewriting loop computes the rewritten result |
| TermMatching.RewritePairs | InfEngine/Engine/Terms/Term_Match.cs:61-82 | the stack-rewriting loop computes the substituted pairs, order kept |
| TermMatching.PushArgs | InfEngine/Engine/Terms/Term_Match.cs:157-160 | the push loop appends the argument pairs in order |
| TermMatching.SubstituteLate | InfEngine/Engine/Terms/Term_Match.cs:200-205 | the late-goal loop substitutes every late goal |
| TermMatching.InternalTryMatch | InfEngine/Engine/Terms/Term_Match.cs:18-208 | the imperative loop returns the bindings and late goals of the unifier, `null`, or the exception when asked to throw |
| TermMatching.TryMatch | InfEngine/Engine/Terms/Term_Match.cs:8-11 | `TryMatch` is the unifier's answer, `None` for `null` |
| TermMatching.Match | InfEngine/Engine/Terms/Term_Match.cs:13-16 | `Match` never returns `null`: it succeeds exactly when `TryMatch` does, with the same match, and throws otherwise |
| UnifierExamples.MatchTestsGround | Tests/MatchTests.cs:7-30 | `str ~ str` and `List<str> ~ List<str>` match with nothing bound; `str ~ bool` throws |
| UnifierExamples.MatchTestBindsVariable | Tests/MatchTests.cs:32-41 | `List<?a> ~ List<str>` binds exactly `?a := str` |
| UnifierExamples.DecomposeList | InfEngine/Engine/Terms/Term_Match.cs:145-161 | the first step decomposes `List<?a> ~ List<str>` into `?a ~ str` |
| UnifierExamples.BindA | InfEngine/Engine/Terms/Term_Match.cs:31-85 | the next step binds `?a := str` and empties the stack |
| UnifierExamples.DecomposeS | InfEngine/Engine/Terms/Term_Match.cs:145-161 | `S<B, Foo> ~ S<?x, ?x>` pushes `B ~ ?x` and `Foo ~ ?x` |
| UnifierExamples.AsWrittenKeepsVariable | InfEngine/Engine/Terms/Term_Match.cs:116-137 | as written, binding `?x := Foo` leaves `B ~ ?x` on the stack unrewritten |
| UnifierExamples.AsWrittenOverwrites | InfEngine/Engine/Terms/Term_Match.cs:103-139 | the pending pair then overwrites the binding with `?x := B` |
| UnifierExamples.AsWrittenLosesEquation | InfEngine/Engine/Terms/Term_Match.cs:116-137 | as written, `S<B, Foo> ~ S<?x, ?x>` succeeds with `?x := B`, under which the two sides differ |
| UnifierExamples.SidesDiffer | InfEngine/Engine/Terms/Term_Match.cs:116-137 | `S<B, Foo>` and `S<B, B>` differ |
| UnifierExamples.CorrectedRejects | InfEngine/Engine/Terms/Term_Match.cs:116-137 | with the pending pairs rewritten by `left`, the same pair is rejected |
| SolverStates.IndexOf | InfEngine/Engine/Solver_ImplGoals.cs:14-15 | the first position holding the element |
| SolverStates.RemoveFirst | InfEngine/Engine/Solver_ImplGoals.cs:14-15 | `List.Remove` takes out exactly one copy of a present element and leaves an absent one's list unchanged |
| SolverStates.RemoveFirstBelow | InfEngine/Engine/Solver_ImplGoals.cs:14-15 | removing a goal keeps every remaining goal on a node that exists |
| SolverStates.Record | InfEngine/Engine/Solver_ImplGoals.cs:237-246 | `provenGoals[node].Add(pg)`: only that node's list changes, by appending `pg`, and a new list is created when the node has none |
| SolverStates.RecordKeepsKeys | InfEngine/Engine/Solver_ImplGoals.cs:237-246 | recording an application keyed by its clause's parameters keeps every record so keyed |
| SolverEqGoals.DrainNext | InfEngine/Engine/Solver_EqGoals.cs:9-25 | a drain is one turn followed by the drain of what the turn leaves, unless the turn ends the loop |
| SolverEqGoals.DrainEnds | InfEngine/Engine/Solver_EqGoals.cs:9-27 | a drain that returns `true` leaves no eq goal; with no eq goal it changes nothing |
| SolverEqGoals.AsWrittenDrainLosesBinding | InfEngine/Engine/Solver_EqGoals.cs:9-24 | the eq goals `[?a = str, ?b = bool]`: the loop binds `?b := bool`, then `?a := str`; the merge as written keeps only the last match, losing `?b`, where `MergeMatch` keeps both |
| SolverEqGoals.BindsAlone | InfEngine/Engine/Terms/Term_Match.cs:31-85 | a variable matched against a constructor without arguments is bound to it and to nothing else, in either variant |
| SolverEqGoals.MergeStep | InfEngine/Engine/Solver_EqGoals.cs:16-24 | unifying a goal already rewritten with solved bindings yields fresh keys, and the merge stays idempotent |
| SolverEqGoals.TurnIdempotent | InfEngine/Engine/Solver_EqGoals.cs:9-25 | a turn keeps the bindings idempotent |
| SolverEqGoals.TurnRefines | InfEngine/Engine/Solver_EqGoals.cs:9-25 | an equation the bindings already solve stays solved after a turn |
| SolverEqGoals.TurnSolvesGoal | InfEngine/Engine/Solver_EqGoals.cs:13-24 | the goal a turn pops is solved by the merged bindings once its late goals hold |
| SolverEqGoals.DrainIdle | InfEngine/Engine/Solver_EqGoals.cs:9 | with no goal, the bindings are unchanged |
| SolverEqGoals.DrainPreserves | InfEngine/Engine/Solver_EqGoals.cs:9-25 | a property every turn keeps holds after the whole loop |
| SolverEqGoals.DrainIdempotent | InfEngine/Engine/Solver_EqGoals.cs:9-25 | `ProcessEquationGoals` keeps the bindings idempotent |
| SolverEqGoals.DrainRefines | InfEngine/Engine/Solver_EqGoals.cs:9-25 | an equation solved before the loop is still solved after it: bindings only get refined |
| SolverEqGoals.SubstituteImplGoals | InfEngine/Engine/Solver_EqGoals.cs:34-40 | the impl-goal rewrite keeps the number of goals |
| SolverEqGoals.SubstituteNormGoals | InfEngine/Engine/Solver_EqGoals.cs:42-48 | the norm-goal rewrite keeps the number of goals |
| SolverEqGoals.SubstituteProven | InfEngine/Engine/Solver_EqGoals.cs:50-52 | the rewrite of one node's applications keeps their number |
| SolverEqGoals.SubstituteProvenMap | InfEngine/Engine/Solver_EqGoals.cs:50-52 | the rewrite of the recorded applications keeps their nodes |
| SolverEqGoals.SubstituteInstantiations | InfEngine/Engine/Solver_EqGoals.cs:54-57 | the rewrite of the instantiations keeps their names |
| SolverEqGoals.ImplGoalsUnchanged | InfEngine/Engine/Solver_EqGoals.cs:32 | with no bindings, the impl goals are unchanged |
| SolverEqGoals.NormGoalsUnchanged | InfEngine/Engine/Solver_EqGoals.cs:32 | with no bindings, the norm goals are unchanged |
| SolverEqGoals.ProvenUnchanged | InfEngine/Engine/Solver_EqGoals.cs:32 | with no bindings, the recorded applications are unchanged |
| SolverEqGoals.InstantiationsUnchanged | InfEngine/Engine/Solver_EqGoals.cs:32 | with no bindings, the instantiations are unchanged |
| SolverEqGoals.GuardHarmless | InfEngine/Engine/Solver_EqGoals.cs:32 | the `IsEmpty` early return gives the same state as rewriting everything |
| SolverEqGoals.AppliedKeeps | InfEngine/Engine/Solver_EqGoals.cs:30-59 | the rewrite keeps every goal's chain, depth and slot, every record's clause and keys, every instantiation's name and slots, and leaves eq goals, bindings and clauses alone |
| SolverEqGoals.AppliedConsistent | InfEngine/Engine/Solver_EqGoals.cs:30-59 | the rewrite keeps the search invariant |
| SolverEqGoals.InstantiationSettles | InfEngine/Engine/Solver_EqGoals.cs:54-57 | rewriting an instantiation twice with idempotent bindings equals once |
| SolverEqGoals.ProvenGoalSettles | InfEngine/Engine/Solver_EqGoals.cs:50-52 | rewriting a recorded application twice equals once |
| SolverEqGoals.AppliedSettles | InfEngine/Engine/Solver_EqGoals.cs:30-59 | after the rewrite no pending goal mentions a bound variable, and a second rewrite changes nothing |
| SolverEqGoals.DrainOnce | InfEngine/Engine/Solver_EqGoals.cs:11-24 | one turn of the loop body computes the turn function, with the corrected unifier and merge |
| SolverEqGoals.DrainLoop | InfEngine/Engine/Solver_EqGoals.cs:9-27 | the `while` loop computes the drain, with the corrected unifier and merge |
| SolverEqGoals.RewriteImplGoals | InfEngine/Engine/Solver_EqGoals.cs:34-40 | the list loop rewrites each impl goal in place |
| SolverEqGoals.RewriteNormGoals | InfEngine/Engine/Solver_EqGoals.cs:42-48 | the list loop rewrites each norm goal in place |
| SolverEqGoals.RewriteInstantiations | InfEngine/Engine/Solver_EqGoals.cs:54-57 | the dictionary loop rewrites each instantiation under its key |
| SolverEqGoals.Solver.constructor | InfEngine/Engine/Solver_EqGoals.cs:7-59 | a solver over the given state |
| SolverEqGoals.Solver.ProcessEquationGoals | InfEngine/Engine/Solver_EqGoals.cs:7-28 | the norm goals, eq goals and bindings become the drain's, with the corrected unifier and merge; nothing else changes |
| SolverEqGoals.Solver.ApplySubstitutionsToGoals | InfEngine/Engine/Solver_EqGoals.cs:30-59 | the new state is the rewritten state |
| SolverImplGoals.ParamValues | InfEngine/Engine/Solver_ImplGoals.cs:210-220 | the argument map has exactly the clause's type parameters as keys |
| SolverImplGoals.ParamList | InfEngine/Engine/Solver_ImplGoals.cs:141-159 | the values of the type parameters, in declaration order |
| SolverImplGoals.FindRepeat | InfEngine/Engine/Solver_ImplGoals.cs:224-233 | the inner scan finds an application of the same clause whose arguments contain the new ones, iff there is one |
| SolverImplGoals.TryAddProvenImplGoal | InfEngine/Engine/Solver_ImplGoals.cs:202-252 | refuses exactly when some node of the goal's chain applied the clause to arguments containing the new ones; otherwise records the application on the goal's node |
| SolverImplGoals.NoParamsOncePerChain | InfEngine/Engine/Solver_ImplGoals.cs:222-235 | a clause without type parameters is applied at most once along a chain |
| SolverImplGoals.Names | InfEngine/Engine/Solver_ImplGoals.cs:151-159 | `n` successive counter names |
| SolverImplGoals.NamesFresh | InfEngine/Engine/Solver_ImplGoals.cs:151-159 | those names are distinct and none was issued before |
| SolverImplGoals.NewNames | InfEngine/Engine/Solver_ImplGoals.cs:151-159 | drawing `n` names advances the counter by `n` |
| SolverImplGoals.FreshVarMapFacts | InfEngine/Engine/Solver_ImplGoals.cs:266-267 | every type parameter, and nothing else, maps to its own fresh variable name `?k` |
| SolverImplGoals.FreshVars | InfEngine/Engine/Solver_ImplGoals.cs:266-267 | `ToDictionary(_ => FreeVar.New())` draws one fresh variable per parameter, in order |
| SolverImplGoals.AddNewInstantiation | InfEngine/Engine/Solver_ImplGoals.cs:141-174 | an ImplClause records an instantiation under the goal's slot; an AssocTyClause records none; each constraint gets a new slot name |
| SolverImplGoals.AddRequirementsFromInstantiation | InfEngine/Engine/Solver_ImplGoals.cs:89-131 | one requirement per constraint is appended, each on a new child node of the goal's node, and nothing else changes |
| SolverImplGoals.Enumerate | InfEngine/Engine/Solver_ImplGoals.cs:79-87 | dictionary enumeration lists every entry once |
| SolverImplGoals.AssocTraitGoals | InfEngine/Engine/Solver_ImplGoals.cs:79-87 | one eq goal per associated-type entry |
| SolverImplGoals.BindingGoals | InfEngine/Engine/Solver_ImplGoals.cs:133-139 | one eq goal per binding |
| SolverImplGoals.AddAssocTraitGoals | InfEngine/Engine/Solver_ImplGoals.cs:79-87 | appends `Target::<Trait>::Name = value` for every associated constraint of the goal |
| SolverImplGoals.AddSubstitutionsAsEqGoals | InfEngine/Engine/Solver_ImplGoals.cs:133-139 | appends `?x = value` for every binding of the match |
| SolverImplGoals.AssocTraitGoalsCover | InfEngine/Engine/Solver_ImplGoals.cs:79-87 | the appended goals are exactly one alias equation per associated constraint |
| SolverImplGoals.BindingGoalsCover | InfEngine/Engine/Solver_ImplGoals.cs:133-139 | the appended goals are exactly one equation per binding |
| SolverImplGoals.EntriesCount | InfEngine/Engine/Solver_ImplGoals.cs:133-139 | an enumeration has as many entries as the map |
| SolverImplGoals.DistinctCard | InfEngine/Engine/Solver_ImplGoals.cs:133-139 | distinct keys count once each |
| SolverImplGoals.ReuseFacts | InfEngine/Engine/Solver_ImplGoals.cs:176-200 | a cached proof is reused: the goal's slot takes the cached slot's instantiation, the other slots are kept, the norm reuse cache is cleared and nothing else changes |
| SolverImplGoals.TryReuseExistingProof | InfEngine/Engine/Solver_ImplGoals.cs:176-200 | a proof is reused exactly when the goal's target and trait are in the reuse cache |
| SolverImplGoals.BuildCandidate | InfEngine/Engine/Solver_ImplGoals.cs:9-77 | the method computes the candidate function; an expansion adds one node per constraint and draws one slot per constraint, and a rejection or reuse draws nothing |
| SolverImplGoals.BuildOutcomeCases | InfEngine/Engine/Solver_ImplGoals.cs:9-77 | no candidate iff the chain cycles or the depth exceeds the bound; otherwise a reuse or the expansion |
| SolverImplGoals.ChainExtend | InfEngine/Engine/Goals/ProofChain.cs:3-18 | adding nodes keeps every existing chain |
| SolverImplGoals.ChildNodesValid | InfEngine/Engine/Solver_ImplGoals.cs:96-112 | the children added have an existing parent |
| SolverImplGoals.RequirementsShape | InfEngine/Engine/Solver_ImplGoals.cs:89-131 | requirement `k` is constraint `k`, substituted, in slot `k`, one level deeper, on node `firstNode + k` |
| SolverImplGoals.ChildNodeParent | InfEngine/Engine/Solver_ImplGoals.cs:96-112 | each new node's parent is the goal's node |
| SolverImplGoals.ExpansionGoals | InfEngine/Engine/Solver_ImplGoals.cs:42-56 | the expansion's slots are fresh names, and its impl goals are the old ones without the goal, plus the requirements |
| SolverImplGoals.ExpansionRecords | InfEngine/Engine/Solver_ImplGoals.cs:46-63 | an expansion records the instantiation (clause name, parameter values, one slot per constraint), the application on the goal's node and the reuse entry; clauses and bindings are unchanged |
| SolverImplGoals.ExpansionBlocksRepeat | InfEngine/Engine/Solver_ImplGoals.cs:21-24 | after an expansion, applying the same clause to the same arguments on any new child node is refused |
| SolverImplGoals.RecordRepeats | InfEngine/Engine/Solver_ImplGoals.cs:222-235 | a recorded application repeats itself |
| SolverImplGoals.CyclesAt | InfEngine/Engine/Solver_ImplGoals.cs:222-235 | a repeat on any ancestor is a cycle |
| SolverImplGoals.RequirementsBelow | InfEngine/Engine/Solver_ImplGoals.cs:89-131 | requirements sit on nodes below the new node count |
| SolverImplGoals.AppendBelow | InfEngine/Engine/Solver_ImplGoals.cs:89-131 | appending keeps goals below the node count |
| SolverImplGoals.CacheResolved | InfEngine/Engine/Solver_ImplGoals.cs:59-63 | caching a resolved slot keeps every cached slot resolved |
| SolverImplGoals.ExpansionConsistent | InfEngine/Engine/Solver_ImplGoals.cs:9-77 | an expansion keeps the search invariant, with its new nodes counted |
| SolverImplGoals.ReuseConsistent | InfEngine/Engine/Solver_ImplGoals.cs:176-200 | a reuse keeps the search invariant |
| SolverImplGoals.Eligibles | InfEngine/Engine/Solver_ImplGoals.cs:254-318 | the clauses tried among the first `n` are no more than `n` |
| SolverImplGoals.EligiblesExact | InfEngine/Engine/Solver_ImplGoals.cs:256-317 | exactly the eligible clauses are tried, each once, in clause order: AssocTyClauses of the name for an IrAlias target, ImplClauses otherwise |
| SolverImplGoals.AttemptUnifies | InfEngine/Engine/Solver_ImplGoals.cs:271-306 | a candidate comes from a clause whose freshened head the corrected matcher unifies with the goal, once the late goals hold |
| SolverImplGoals.TryClause | InfEngine/Engine/Solver_ImplGoals.cs:254-318 | one clause's attempt: fresh variables for its parameters, then the match through the corrected unifier and the build |
| SolverImplGoals.Somes | InfEngine/Engine/Solver_ImplGoals.cs:254-318 | the candidates kept are no more than those tried |
| SolverImplGoals.SomesSnoc | InfEngine/Engine/Solver_ImplGoals.cs:254-318 | a tried clause adds its candidate when it yields one |
| SolverImplGoals.SomesKeep | InfEngine/Engine/Solver_ImplGoals.cs:254-318 | the candidates are exactly the outcomes that are present |
| SolverImplGoals.TriesSnoc | InfEngine/Engine/Solver_ImplGoals.cs:254-318 | one more attempt extends the record of attempts |
| SolverImplGoals.TryNext | InfEngine/Engine/Solver_ImplGoals.cs:254-318 | one turn of the clause loop tries the next clause when it is eligible |
| SolverImplGoals.GetCandidates | InfEngine/Engine/Solver_ImplGoals.cs:254-318 | tries exactly the eligible clauses in clause order, and returns the candidates of those that yielded one, with heads matched by the corrected unifier |
| SolverNormGoals.AddRequirementsFromNorm | InfEngine/Engine/Solver_NormGoals.cs:105-137 | appends the clause's requirement under fresh slots |
| SolverNormGoals.NormRequirementsShape | InfEngine/Engine/Solver_NormGoals.cs:105-137 | an AliasImplClause requires its substituted impl constraint and an ImplClause requires its own substituted `Target: Trait` without associated types; each requirement sits on the goal's node one level deeper in a fresh slot |
| SolverNormGoals.NormReuseFacts | InfEngine/Engine/Solver_NormGoals.cs:78-103 | a cached alias adds only `result = cached` to the eq goals |
| SolverNormGoals.TryReuseExistingNorm | InfEngine/Engine/Solver_NormGoals.cs:78-103 | a normalization is reused exactly when the alias is in the reuse cache |
| SolverNormGoals.BuildNormCandidate | InfEngine/Engine/Solver_NormGoals.cs:10-76 | the method computes the norm-candidate function and draws slots only for a fresh reduction |
| SolverNormGoals.BuildNormCases | InfEngine/Engine/Solver_NormGoals.cs:10-76 | `_infRec` iff the cycle check or the depth bound refuses; a reuse when the alias is cached; the reduction otherwise |
| SolverNormGoals.NormExpansionRecords | InfEngine/Engine/Solver_NormGoals.cs:43-75 | a reduction caches the alias's result and appends the requirements; instantiations, impl reuse cache, bindings and clauses are unchanged |
| SolverNormGoals.NormExpansionEqGoals | InfEngine/Engine/Solver_NormGoals.cs:43-54 | a reduction's eq goals include every late goal and one equation per binding |
| SolverNormGoals.BindingTail | InfEngine/Engine/Solver_NormGoals.cs:51-54 | appending late goals and binding goals keeps them all |
| SolverNormGoals.NormExpansionConsistent | InfEngine/Engine/Solver_NormGoals.cs:43-75 | a reduction keeps the search invariant |
| SolverNormGoals.NormReuseConsistent | InfEngine/Engine/Solver_NormGoals.cs:78-103 | a reuse keeps the search invariant |
| SolverNormGoals.AddFallback | InfEngine/Engine/Solver_NormGoals.cs:260-298 | the fallback block creates one child node and one slot |
| SolverNormGoals.FallbackFacts | InfEngine/Engine/Solver_NormGoals.cs:260-298 | the fallback removes the norm goal, adds `result = IrAlias(...)` and the impl goal `Target: Trait` one level deeper, and nothing else |
| SolverNormGoals.FallbackConsistent | InfEngine/Engine/Solver_NormGoals.cs:260-298 | the fallback keeps the search invariant |
| SolverNormGoals.NormAttemptUnifies | InfEngine/Engine/Solver_NormGoals.cs:141-258 | a norm candidate comes from a clause whose head the corrected matcher unifies with the alias |
| SolverNormGoals.TryNormClause | InfEngine/Engine/Solver_NormGoals.cs:141-258 | one clause's attempt in one of the three loops, matched through the corrected unifier |
| SolverNormGoals.ScanOrder | InfEngine/Engine/Solver_NormGoals.cs:141-258 | a loop tries no more clauses than there are |
| SolverNormGoals.ScanOrderSound | InfEngine/Engine/Solver_NormGoals.cs:141-258 | each clause a loop tries is eligible for that loop, in clause order |
| SolverNormGoals.ScanOrderComplete | InfEngine/Engine/Solver_NormGoals.cs:141-258 | every eligible clause is tried |
| SolverNormGoals.NoAssocTyScan | InfEngine/Engine/Solver_NormGoals.cs:212-258 | the AssocTyClause loop tries nothing unless the target is an IrAlias |
| SolverNormGoals.NormTryNext | InfEngine/Engine/Solver_NormGoals.cs:141-258 | one turn of a clause loop |
| SolverNormGoals.ScanClauses | InfEngine/Engine/Solver_NormGoals.cs:141-258 | a whole clause loop tries its eligible clauses |
| SolverNormGoals.GetNormCandidates | InfEngine/Engine/Solver_NormGoals.cs:139-299 | the AliasImpl, Impl and AssocTy loops tried in order, with their candidates, followed by the fallback, with heads matched by the corrected unifier |
| SolverDrivers.NextLive | InfEngine/Engine/SolverDriver.cs:42-48 | the `goto MoveNext` loop skips exactly the `_infRec` candidates |
| SolverDrivers.StepKeepsRooted | InfEngine/Engine/SolverDriver.cs:17-107 | the root frame stays at the bottom and only there, is not replaced while frames sit above it, and the loop goes on only with a frame above it |
| SolverDrivers.ImplSkipsInfRec | InfEngine/Engine/SolverDriver.cs:42-48 | an impl frame skips an `_infRec` candidate |
| SolverDrivers.NormReturnsInfRec | InfEngine/Engine/SolverDriver.cs:77-80 | a norm frame returns `_infRec` as the answer |
| SolverDrivers.ExhaustedFramePops | InfEngine/Engine/SolverDriver.cs:63-71 | an exhausted frame is popped |
| SolverDrivers.UnknownFrameStops | InfEngine/Engine/SolverDriver.cs:104-105 | an unknown frame ends the run with `null` |
| SolverDrivers.FoundSucceeded | InfEngine/Engine/SolverDriver.cs:26-72 | a solver found is one for which `InternalRun` returned a success frame |
| SolverDrivers.InfRecFromNorms | InfEngine/Engine/SolverDriver.cs:73-103 | `_infRec` is never the answer unless some frame or some run supplies it |
| SolverDrivers.NotFoundAtRoot | InfEngine/Engine/SolverDriver.cs:63-71 | `null` comes back with only the root left, or from an unknown frame |
| SolverDrivers.StepOnce | InfEngine/Engine/SolverDriver.cs:17-107 | one turn of `while (true)` computes the turn function |
| SolverDrivers.SolverDriver.constructor | InfEngine/Engine/SolverDriver.cs:12-15 | the stack holds the root frame alone |
| SolverDrivers.SolverDriver.Run | InfEngine/Engine/SolverDriver.cs:17-107 | the answer and the stack left are those of the model search |
| LegacyTerms.AnyOfArgs | InfEngine/Engine/App.cs:21-38 | some argument has a matching subterm iff the disjunction over the arguments holds |
| LegacyTerms.AnyAgrees | InfEngine/Engine/App.cs:21-38 | the older `Any` gives the same answer as the newer one on every term |
| LegacyTerms.AnyFreeVarIffFreeVars | InfEngine/Engine/App.cs:21-38 | a term holds a FreeVar exactly when its set of free variables is not empty |
| LegacyTerms.OccursIffFreeVar | InfEngine/Engine/App.cs:21-38 | the occurs check finds `x` exactly when `x` is a free variable of the term |
| LegacyTerms.ReplaceArgs | InfEngine/Engine/App.cs:40-49 | every argument is replaced on its own, with the arity kept |
| LegacyTerms.ReplaceAgrees | InfEngine/Engine/App.cs:40-49 | the older `Replace` rewrites every term as the newer one does |
| LegacyTerms.ReplaceKeepsShape | InfEngine/Engine/App.cs:40-49 | an App that is not replaced itself keeps its head and arity and has its arguments replaced |
| LegacyTerms.ReplaceNeverIsIdentity | InfEngine/Engine/App.cs:40-49 | a replacement that never fires leaves the term unchanged |
| LegacyTerms.Descendants | InfEngine/Engine/App.cs:51-60 | every descendant listed is of the requested kind |
| LegacyTerms.ArgsOfKind | InfEngine/Engine/App.cs:51-60 | the older `Descendants` of an App are exactly its immediate arguments of the kind |
| LegacyTerms.DescendantsShallow | InfEngine/Engine/App.cs:51-60 | each older descendant is also a descendant for the newer engine |
| LegacyTerms.NestedVarNotDescendant | InfEngine/Engine/App.cs:51-60 | the older `Descendants` does not go below the first level: `List<List<?a>>` has none, where the newer engine finds `?a` |
| LegacyTerms.AppEquals | InfEngine/Engine/App.cs:15 | two Apps are equal iff their heads and arities agree and each argument of `other` equals the argument at the same position, `other`'s argument being the receiver |
| LegacyGoals.Substitute | InfEngine/Engine/Goal.cs:17 | substituting an impl goal rewrites its target and trait and keeps its slot |
| LegacyGoals.SubstituteEmpty | InfEngine/Engine/Goal.cs:17 | the empty match leaves a goal unchanged |
| LegacyGoals.SubstituteIdempotent | InfEngine/Engine/Goal.cs:17 | with idempotent bindings, substituting twice equals once and no bound variable is left |
| LegacyGoals.IsNonGeneric | InfEngine/Engine/Goal.cs:19-28 | a goal is non-generic iff neither its target nor its trait has a free variable |
| LegacyGoals.DescendantNamesOfApp | InfEngine/Engine/Goal.cs:30-35 | the variables the count sees on an App are its immediate FreeVar arguments |
| LegacyGoals.CountFreeVars | InfEngine/Engine/Goal.cs:30-35 | on Apps, the count is the number of distinct immediate FreeVar arguments of the target and the trait together |
| LegacyGoals.CountedAreFree | InfEngine/Engine/Goal.cs:19-35 | every counted variable is free in the goal, so a non-generic goal counts zero |
| LegacyGoals.NestedVarNotCounted | InfEngine/Engine/Goal.cs:19-35 | `List<List<?a>>: Eq` is generic and yet counts zero variables |
| LegacyClauses.ParamsEqual | InfEngine/Engine/Clause.cs:51-55 | the type-parameter loop answers true iff the two lists are equal |
| LegacyClauses.ParamsFrom | InfEngine/Engine/Clause.cs:51-55 | the loop from index `i` answers true iff the suffixes are equal |
| LegacyClauses.ConstraintsEqual | InfEngine/Engine/Clause.cs:58-62 | the constraint loop answers true iff the lists have one length and are equal position by position |
| LegacyClauses.ConstraintsFrom | InfEngine/Engine/Clause.cs:58-62 | the loop from index `i` answers true iff the remaining constraints are equal position by position |
| LegacyClauses.Equals | InfEngine/Engine/Clause.cs:40-65 | `null` is never equal; otherwise equal iff name, target, trait, type parameters and constraints are |
| LegacyClauses.SameObjectShortcut | InfEngine/Engine/Clause.cs:43 | the `ReferenceEquals` shortcut gives the answer the field comparison would give |
| LegacyClauses.EqualsWithoutConsts | InfEngine/Engine/Clause.cs:40-65 | on clauses without constants, `Equals` is value equality |
| LegacyMatch.Reversed | InfEngine/Engine/Term_Match.cs:101-102 | reversing the argument pairs keeps their number |
| LegacyMatch.ReversedFacts | InfEngine/Engine/Term_Match.cs:101-102 | the reversed pairs are the originals back to front, with the same variables and size, so the last pair popped is the first argument |
| LegacyMatch.ArgPairsMeasure | InfEngine/Engine/Term_Match.cs:101-102 | zipping two Apps' arguments keeps their variables and shrinks their size |
| LegacyMatch.PopMeasure | InfEngine/Engine/Term_Match.cs:104-121 | popping a pair splits the pending work without adding variables |
| LegacyMatch.Unify | InfEngine/Engine/Term_Match.cs:15-146 | a success is a settled substitution over the two terms' variables |
| LegacyMatch.UnifyPairs | InfEngine/Engine/Term_Match.cs:104-121 | the pending-pair loop's success is settled and stays within the variables it was given |
| LegacyMatch.BindFacts | InfEngine/Engine/Term_Match.cs:52 | a binding that passed the occurs check is settled |
| LegacyMatch.SubstVars | InfEngine/Engine/Term_Match.cs:115-118 | substitution removes bound variables and adds only variables of the values |
| LegacyMatch.SubstPairsVars | InfEngine/Engine/Term_Match.cs:115-118 | the same for the rewrite of the pending pairs |
| LegacyMatch.SubstituteTrivial | InfEngine/Engine/Term_Match.cs:115-118 | bindings that move none of a term's variables leave it unchanged |
| LegacyMatch.SubstPairsTrivial | InfEngine/Engine/Term_Match.cs:115-118 | the same for pending pairs |
| LegacyMatch.MergedMoves | InfEngine/Engine/Term_Match.cs:148-159 | a variable the merge moves is moved by the new bindings, or kept from the old ones |
| LegacyMatch.MergeSettled | InfEngine/Engine/Term_Match.cs:148-159 | merging fresh settled bindings into settled ones stays settled |
| LegacyMatch.MergeFresh | InfEngine/Engine/Term_Match.cs:104-121 | after a merge, no moved variable remains in the rewritten pending pairs |
| LegacyMatch.MergeScope | InfEngine/Engine/Term_Match.cs:148-159 | a merge introduces no new variable |
| LegacyMatch.PopStep | InfEngine/Engine/Term_Match.cs:104-121 | one turn of the pair loop keeps the bindings settled and fresh and makes progress |
| LegacyMatch.MergeInto | InfEngine/Engine/Term_Match.cs:148-159 | the method computes the merge |
| LegacyMatch.RewriteValues | InfEngine/Engine/Term_Match.cs:148-159 | the receiver's values are rewritten by the new bindings, its keys kept |
| LegacyMatch.WriteOver | InfEngine/Engine/Term_Match.cs:148-159 | the new bindings are written over the receiver's |
| LegacyMatch.RewritePairs | InfEngine/Engine/Term_Match.cs:115-118 | every pending pair is rewritten by the new bindings |
| LegacyMatch.InternalTryMatch | InfEngine/Engine/Term_Match.cs:15-146 | the recursive method answers as the unification function does, returning `null` or throwing on failure |
| LegacyMatch.TryMatch | InfEngine/Engine/Term_Match.cs:5-8 | `TryMatch` returns the unifier, or `null` on failure |
| LegacyMatch.Match | InfEngine/Engine/Term_Match.cs:10-13 | `Match` never returns `null`: it returns the unifier or throws |
| LegacyMatchFacts.AbsorbsSubst | InfEngine/Engine/Term_Match.cs:148-159 | substituting through bindings a later result absorbs is the same as substituting by the later result |
| LegacyMatchFacts.UnifySound | InfEngine/Engine/Term_Match.cs:15-146 | a successful match makes both sides equal |
| LegacyMatchFacts.BindingSound | InfEngine/Engine/Term_Match.cs:52 | a variable binding makes its two sides equal |
| LegacyMatchFacts.AppFromPairs | InfEngine/Engine/Term_Match.cs:89-122 | two Apps are equal under bindings that equate every argument pair |
| LegacyMatchFacts.UnifyPairsSound | InfEngine/Engine/Term_Match.cs:104-121 | the loop's result equates every pending pair and absorbs the bindings it started from |
| LegacyMatchFacts.SoundStep | InfEngine/Engine/Term_Match.cs:104-121 | one turn keeps soundness |
| LegacyMatchFacts.MergedAbsorbs | InfEngine/Engine/Term_Match.cs:148-159 | a result that absorbs the merge absorbs the new bindings |
| LegacyMatchFacts.StackStep | InfEngine/Engine/Term_Match.cs:104-121 | the popped pair and the rewritten rest are equated, so the whole stack is |
| LegacyMatchFacts.ResultStep | InfEngine/Engine/Term_Match.cs:104-121 | absorption of the merge gives absorption of the receiver |
| LegacyMatchFacts.SettledIdempotent | InfEngine/Engine/Term_Match.cs:148-159 | settled bindings are idempotent |
| LegacyMatchFacts.UnifyIdempotent | InfEngine/Engine/Term_Match.cs:15-146 | the unifier only mentions the terms' variables and is idempotent |
| LegacyMatchFacts.SelfUnify | InfEngine/Engine/Term_Match.cs:15-146 | every term without constants matches itself with trivial bindings |
| LegacyMatchFacts.UnifyPairsSelf | InfEngine/Engine/Term_Match.cs:104-121 | pending pairs with equal sides succeed trivially |
| LegacyMatchFacts.MergedTrivial | InfEngine/Engine/Term_Match.cs:148-159 | merging trivial bindings stays trivial |
| LegacyMatchFacts.OccursCheckFails | InfEngine/Engine/Term_Match.cs:29-37 | a variable never matches a larger term holding it, on either side |
| LegacyMatchFacts.SameVariable | InfEngine/Engine/Term_Match.cs:21-27 | a variable against itself binds to itself |
| LegacyMatchFacts.BindsVariable | InfEngine/Engine/Term_Match.cs:19-88 | a variable binds to any term that does not hold it, from either side |
| LegacyMatchFacts.HeadMismatchFails | InfEngine/Engine/Term_Match.cs:91-99 | Apps with different heads or arities do not match |
| LegacyMatchFacts.BoundVarsUnify | InfEngine/Engine/Term_Match.cs:123-134 | bound variables match iff equal, with no bindings |
| LegacyMatchFacts.OtherPairsFail | InfEngine/Engine/Term_Match.cs:135-143 | every other pair of terms fails |
| LegacyMatchFacts.ThrowsIffNull | InfEngine/Engine/Term_Match.cs:5-13 | the throwing mode throws exactly when the other returns `null`, and both agree on success |
| LegacyMatchFacts.FirstArgumentsFirst | InfEngine/Engine/Term_Match.cs:101-121 | `f<?a, ?a>` against `f<int, ?b>` binds `?a` first, then `?b := int` |
| LegacyMatchFacts.FirstPair | InfEngine/Engine/Term_Match.cs:101-121 | the first turn takes the first argument pair |
| LegacyMatchFacts.SecondPair | InfEngine/Engine/Term_Match.cs:101-121 | the second turn binds the rewritten second pair |
| LegacyRetrieve.FirstWhere | InfEngine/Engine/Solver.cs:176 | `FirstOrDefault` finds the first goal with the property, and none iff no goal has it |
| LegacyRetrieve.LeastWhere | InfEngine/Engine/Solver.cs:182-185 | `Where` then `OrderBy` then `FirstOrDefault` finds a goal with the property, and none iff no goal has it |
| LegacyRetrieve.LeastWhereMinimal | InfEngine/Engine/Solver.cs:182-185 | the goal found has the least key, and the first such in list order since `OrderBy` is stable |
| LegacyRetrieve.RetrieveImplGoal | InfEngine/Engine/Solver.cs:171-198 | an empty list elects nothing; the goal elected is one of the goals |
| LegacyRetrieve.RetrieveNoneIffEmpty | InfEngine/Engine/Solver.cs:171-198 | with positive chain ids, nothing is elected iff there is no goal |
| LegacyRetrieve.RetrieveShape | InfEngine/Engine/Solver.cs:176-197 | the first non-generic goal; else the ground-target goal with the fewest counted variables; else the goal with the fewest counted variables |
| LegacyRetrieve.GroundTargetIff | InfEngine/Engine/Solver.cs:182 | `!Target.Any<FreeVar>()` holds iff the target has no free variable |
| LegacyRetrieve.ElectsNonGenericFirst | InfEngine/Engine/Solver.cs:176-180 | the first goal without variables is elected |
| LegacyRetrieve.ElectsGroundTargetNext | InfEngine/Engine/Solver.cs:182-190 | with no non-generic goal, the first ground-target goal of least count is elected |
| LegacyRetrieve.NoneNonGeneric | InfEngine/Engine/Solver.cs:176-177 | with every goal generic, the first step finds nothing |
| LegacyRetrieve.LeastGroundTarget | InfEngine/Engine/Solver.cs:182-185 | when some target is ground, the second step finds the first ground-target goal of least count |
| LegacyRetrieve.ElectsLeastCountLast | InfEngine/Engine/Solver.cs:192-197 | with no ground target, the first goal of least count is elected |
| LegacyRetrieve.LeastCount | InfEngine/Engine/Solver.cs:192-195 | the third step finds the first goal of least count |
| LegacyRetrieve.NoTargetGround | InfEngine/Engine/Solver.cs:176-190 | with no ground target, the first two steps find nothing |
| LegacyRetrieve.NestedCounts | InfEngine/Engine/Goal.cs:30-35 | `List<List<?a>>` counts 0 and `Vec<?b>` counts 1 variable |
| LegacyRetrieve.FewestCountedElected | InfEngine/Engine/Solver.cs:192-197 | with no ground target, the goal with strictly fewest counted variables is elected |
| LegacySolverStates.ComposesKeepsEquated | InfEngine/Engine/Solver.cs:213 | a merge that composes keeps every equation the receiver solved |
| LegacySolverStates.ComposeComposes | InfEngine/Engine/Solver.cs:213 | composition of substitutions is such a merge |
| LegacySolverStates.StackAdd | InfEngine/Engine/Solver_BuildCandidate.cs:125-128 | `HashSet.Add` reports true iff the entry was absent, keeps the set free of duplicates and adds just the entry |
| LegacySolverStates.Dedup | InfEngine/Engine/Solver.cs:230 | building a `HashSet` keeps one copy of each element and no other |
| LegacySolverStates.DedupNoRepeats | InfEngine/Engine/Solver.cs:230 | a list without duplicates is kept as it is |
| LegacySolverStates.OfTypePartition | InfEngine/Engine/Solver.cs:28-29 | `OfType` splits the goals into the eq goals and the impl goals, each exactly once |
| LegacySolverStates.InitFacts | InfEngine/Engine/Solver.cs:26-31 | the new solver holds the eq goals and impl goals in list order, impl goal `k` with chain id `k + 1` at depth 0, an empty stack, no bindings, no instantiations, and the search invariant |
| LegacyEqGoals.SubstituteImplGoals | InfEngine/Engine/Solver.cs:225-228 | every impl goal is rewritten, its chain id and depth kept |
| LegacyEqGoals.SubstituteStack | InfEngine/Engine/Solver.cs:230 | every stack entry is rewritten, its chain id kept |
| LegacyEqGoals.SubstituteInstantiations | InfEngine/Engine/Solver.cs:232-235 | the instantiation names are kept |
| LegacyEqGoals.DrainEnds | InfEngine/Engine/Solver.cs:205-221 | a drain that succeeds leaves no eq goal and has bindings if there was any goal |
| LegacyEqGoals.DrainRefines | InfEngine/Engine/Solver.cs:205-221 | with a merge that keeps equations, an equation solved before the loop is solved after it |
| LegacyEqGoals.ImageNotMoved | InfEngine/Engine/Solver.cs:217-220 | a variable left after a settled rewrite is not moved by it |
| LegacyEqGoals.NextNotMoved | InfEngine/Engine/Solver.cs:213 | a variable neither the old nor the new bindings move is not moved by their merge |
| LegacyEqGoals.TurnKeepsUntouched | InfEngine/Engine/Solver.cs:209-220 | a goal the bindings do not touch is still untouched after the turn's rewrite |
| LegacyEqGoals.TurnUntouched | InfEngine/Engine/Solver.cs:209-220 | the same for the merged bindings |
| LegacyEqGoals.UntouchedFixed | InfEngine/Engine/Solver.cs:217-220 | an untouched term is a fixed point of the bindings |
| LegacyEqGoals.NextSubstitute | InfEngine/Engine/Solver.cs:213 | on an untouched term, the merged bindings act as the new ones |
| LegacyEqGoals.TurnAgrees | InfEngine/Engine/Solver.cs:209-220 | rewriting a pending goal with the turn's match does not change what the merged bindings make of it |
| LegacyEqGoals.TurnSolves | InfEngine/Engine/Solver.cs:207-213 | the popped goal is solved by the merged bindings |
| LegacyEqGoals.TurnGoalsUntouched | InfEngine/Engine/Solver.cs:217-220 | the rewritten pending goals are untouched by the merged bindings |
| LegacyEqGoals.SolvedAt | InfEngine/Engine/Solver.cs:205-221 | a later solution of the rewritten rest also solves each original goal |
| LegacyEqGoals.DrainSolves | InfEngine/Engine/Solver.cs:205-221 | with a composing merge, the bindings the loop leaves solve every eq goal it started with |
| LegacyEqGoals.HandleEqGoalsKeeps | InfEngine/Engine/Solver.cs:200-239 | the eq-goal step keeps the search invariant, each impl goal's chain id, depth and slot, the instantiation names and the clauses |
| LegacyEqGoals.NoEqGoalsNoChange | InfEngine/Engine/Solver.cs:202-203 | with no eq goal, the step returns true and changes nothing |
| LegacyEqGoals.HandleEqGoalsSolves | InfEngine/Engine/Solver.cs:200-239 | a `true` answer leaves no eq goal and bindings that solve all the goals there were |
| LegacyEqGoals.RewriteEqGoals | InfEngine/Engine/Solver.cs:217-220 | the loop rewrites each pending eq goal |
| LegacyEqGoals.RewriteImplGoals | InfEngine/Engine/Solver.cs:225-228 | the loop rewrites each impl goal |
| LegacyEqGoals.RewriteStack | InfEngine/Engine/Solver.cs:230 | the stack becomes the set of its rewritten entries |
| LegacyEqGoals.RewriteInstantiations | InfEngine/Engine/Solver.cs:232-235 | the loop rewrites each instantiation under its name |
| LegacyCandidates.ParamValues | InfEngine/Engine/Solver_BuildCandidate.cs:62 | the argument map has exactly the clause's type parameters as keys |
| LegacyCandidates.ParamList | InfEngine/Engine/Solver_BuildCandidate.cs:81-97 | the values of the type parameters, in declaration order |
| LegacyCandidates.ValuesOf | InfEngine/Engine/Solver_BuildCandidate.cs:81-97 | each parameter's value is the match's binding of its fresh variable |
| LegacyCandidates.Requirements | InfEngine/Engine/Solver_BuildCandidate.cs:55-71 | one requirement per constraint |
| LegacyCandidates.RequirementsShape | InfEngine/Engine/Solver_BuildCandidate.cs:55-71 | requirement `k` is constraint `k` with the parameter values put in, in slot `k`, on the goal's chain one level deeper |
| LegacyCandidates.TryAddGoalStack | InfEngine/Engine/Solver_BuildCandidate.cs:125-128 | the goal's entry is added iff it was absent, and the answer says which |
| LegacyCandidates.TryReuseExistingProof | InfEngine/Engine/Solver_BuildCandidate.cs:99-123 | a reuse happens iff the stack holds a goal of the same target and trait; the goal's slot then takes the first such goal's instantiation and nothing else changes |
| LegacyCandidates.RejectedIff | InfEngine/Engine/Solver_BuildCandidate.cs:5-53 | no candidate iff the goal is already on the stack, or it has no proven twin and its depth exceeds the bound |
| LegacyCandidates.ReuseBeforeDepth | InfEngine/Engine/Solver.cs:110-127 | a proven twin is reused before the depth bound is consulted, with no new slot and no eq goal; only the older body keeps the stack entry |
| LegacyCandidates.VariantsAgree | InfEngine/Engine/Solver.cs:94-169 | the two bodies of `BuildCandidate` agree except that on reuse only the older one leaves the goal on the stack |
| LegacyCandidates.ExpansionFacts | InfEngine/Engine/Solver_BuildCandidate.cs:28-52 | an expansion adds one eq goal per binding and one requirement per constraint, pushes the goal, records the clause's instantiation with distinct slots, and keeps the other instantiations |
| LegacyCandidates.SlotsDistinct | InfEngine/Engine/Solver_BuildCandidate.cs:81-97 | the slot names drawn are distinct |
| LegacyCandidates.BuildKeepsValid | InfEngine/Engine/Solver_BuildCandidate.cs:5-53 | a candidate keeps the search invariant, the clauses and bindings, adds only the goal's slot, and keeps every other goal |
| LegacyCandidates.ExpansionKeepsValid | InfEngine/Engine/Solver_BuildCandidate.cs:28-52 | an expansion keeps the search invariant and adds only the goal's slot |
| LegacyCandidates.RemoveFirstKeeps | InfEngine/Engine/Solver_BuildCandidate.cs:11 | `List.Remove` keeps every other element and adds none |
| LegacyCandidates.AddSubstitutionsAsEqGoals | InfEngine/Engine/Solver_BuildCandidate.cs:73-79 | appends `?x = value` for every binding, in enumeration order |
| LegacyCandidates.AddRequirementsFromInstantiation | InfEngine/Engine/Solver_BuildCandidate.cs:55-71 | appends the requirements |
| LegacyCandidates.AddNewInstantiation | InfEngine/Engine/Solver_BuildCandidate.cs:81-97 | records the instantiation under the goal's slot, with one new slot name per constraint |
| LegacyCandidates.BuildCandidateInline | InfEngine/Engine/Solver.cs:94-169 | the older body computes the candidate function and draws slots only when it expands |
| LegacyCandidates.ExpandInline | InfEngine/Engine/Solver.cs:128-168 | the older body's expansion |
| LegacyCandidates.BuildCandidateSplit | InfEngine/Engine/Solver_BuildCandidate.cs:5-53 | the newer body computes the candidate function and draws slots only when it expands |
| LegacyCandidates.TryClauseUnifies | InfEngine/Engine/Solver.cs:72-76 | a candidate comes from a clause whose freshened head equals the goal under the match |
| LegacyCandidates.CandidatesValid | InfEngine/Engine/Solver.cs:68-92 | every candidate keeps the search invariant, the clauses and bindings, adds only the goal's slot, and keeps every other goal |
| LegacyCandidates.TryClauseValid | InfEngine/Engine/Solver.cs:72-87 | the same for one clause |
| LegacyCandidates.CandidatesSeeds | InfEngine/Engine/Solver.cs:68-92 | the loop draws one fresh variable per type parameter of every ImplClause |
| LegacyCandidates.CandidatesStep | InfEngine/Engine/Solver.cs:70-89 | a clause that is not an ImplClause is skipped; an ImplClause adds its candidate when it yields one |
| LegacyCandidates.BuildAfterMatch | InfEngine/Engine/Solver.cs:78-88 | a failed match or an unbound parameter yields nothing; otherwise the candidate is built |
| LegacyCandidates.TryNext | InfEngine/Engine/Solver.cs:72-88 | one turn of the clause loop |
| LegacyCandidates.StepCandidates | InfEngine/Engine/Solver.cs:70-89 | one turn extends the candidates of the clauses before |
| LegacyCandidates.GetCandidates | InfEngine/Engine/Solver.cs:68-92 | the method computes the candidate list over all clauses, in clause order |
| LegacySearch.CandidatesSearchable | InfEngine/Engine/Solver.cs:68-92 | every candidate is again a state the search can run on, over the same clauses |
| LegacySearch.ElectedOnChain | InfEngine/Engine/Solver.cs:50-56 | the goal elected is pending and has a positive chain id |
| LegacySearch.HandleEqGoalsEmpties | InfEngine/Engine/Solver.cs:200-239 | a `true` answer leaves no eq goal |
| LegacySearch.RunFoundClean | InfEngine/Engine/Solver.cs:38-66 | a solver returned has no goal left, keeps the search invariant and the clauses |
| LegacySearch.ImplGoalsFoundClean | InfEngine/Engine/Solver.cs:48-66 | the same for `HandleImplGoals` |
| LegacySearch.ExpandFoundClean | InfEngine/Engine/Solver.cs:56-63 | the same for expanding one goal |
| LegacySearch.TryEachFoundClean | InfEngine/Engine/Solver.cs:58-63 | the same for the loop over candidates |
| LegacySearch.EqGoalsKeepAccounted | InfEngine/Engine/Solver.cs:200-239 | the eq-goal step keeps every slot name either instantiated or awaited by a pending goal |
| LegacySearch.CandidateKeepsAccounted | InfEngine/Engine/Solver_BuildCandidate.cs:5-53 | a candidate that instantiates the goal's slot and keeps the other goals keeps every slot accounted for |
| LegacySearch.CandidatesKeepAccounted | InfEngine/Engine/Solver.cs:68-92 | every candidate keeps every slot accounted for |
| LegacySearch.RunFillsSlots | InfEngine/Engine/Solver.cs:38-66 | a solver returned has an instantiation for every slot accounted for at the start |
| LegacySearch.ImplGoalsFillSlots | InfEngine/Engine/Solver.cs:48-66 | the same for `HandleImplGoals` |
| LegacySearch.ExpandFillsSlots | InfEngine/Engine/Solver.cs:56-63 | the same for expanding one goal |
| LegacySearch.TryEachFillsSlots | InfEngine/Engine/Solver.cs:58-63 | the same for the loop over candidates |
| LegacySearch.EqGoalsRefine | InfEngine/Engine/Solver.cs:200-239 | an equation the bindings solve stays solved by the eq-goal step, given a merge that keeps it |
| LegacySearch.RunRefines | InfEngine/Engine/Solver.cs:38-66 | an equation solved at the start is solved by the solver returned |
| LegacySearch.ImplGoalsRefine | InfEngine/Engine/Solver.cs:48-66 | the same for `HandleImplGoals` |
| LegacySearch.ExpandRefines | InfEngine/Engine/Solver.cs:56-63 | the same for expanding one goal |
| LegacySearch.TryEachRefines | InfEngine/Engine/Solver.cs:58-63 | the same for the loop over candidates |
| LegacySearch.RunFillsInitialSlots | InfEngine/Engine/Solver.cs:15-31 | a result instantiates the slot of every impl goal it was given |
| LegacySearch.InitEqGoalsEquated | InfEngine/Engine/Solver.cs:26-31 | with a composing merge, the first eq-goal step solves every initial eq goal |
| LegacySearch.RunKeepsInitEquations | InfEngine/Engine/Solver.cs:15-24 | a result's bindings solve every eq goal it was given |
| LegacySearch.RunSound | InfEngine/Engine/Solver.cs:15-31 | a result leaves no goal, instantiates every initial slot and, with a composing merge, solves every initial eq goal |
| LegacySolver.Solver.constructor | InfEngine/Engine/Solver.cs:26-31 | the public constructor builds the initial state |
| LegacySolver.Solver.FromState | InfEngine/Engine/Solver.cs:33-36 | the private constructor, filled by the object initializer |
| LegacySolver.Solver.HandleEqGoals | InfEngine/Engine/Solver.cs:200-239 | the method updates the fields as the eq-goal step function says, and answers as it does |
| LegacySolver.Solver.Apply | InfEngine/Engine/Solver.cs:223-236 | the fields become the rewritten state |
| LegacySolver.Solver.Run | InfEngine/Engine/Solver.cs:15-24 | a result exists iff the search finds a solver, and is that solver's instantiations and bindings |
| LegacySolver.Solver.InternalRun | InfEngine/Engine/Solver.cs:38-46 | the method answers as the search function does |
| LegacySolver.Solver.HandleImplGoals | InfEngine/Engine/Solver.cs:48-66 | the method answers as the impl-goal step function does and leaves the receiver unchanged |
| LegacySolver.Solver.ExpandGoal | InfEngine/Engine/Solver.cs:56-63 | expanding one goal answers as its function does |
| LegacySolver.RunCandidates | InfEngine/Engine/Solver.cs:58-63 | the candidate loop returns the first candidate whose run succeeds, as its function does |
| LegacySolver.Solve | InfEngine/Engine/Solver.cs:15-31 | building a solver and running it yields the search function's result |

## Left out

- `FreeVar.New` and the static goal counter are process-wide counters. They are modelled by `FreshNames.NameSeed` objects, which issue the same `?n` and `$gn` names in order. Interleaving with other solvers in the same process is not modelled.
- The older engine's `TermMatch.Merge`, called at `Solver.cs:213`, does not appear in the older snapshot. It is the parameter `env.merge`. The results about solved equations assume it composes substitutions (`Composes`) or keeps a given equation (`KeepsEquated`).
- Dictionary enumeration order is unspecified in .NET. Each `foreach` over a dictionary is modelled by an enumeration of its entries (`EntriesOf`), each entry once in some order. In the older search this is the parameter `env.entries`.
- The search, the equation drain and the driver end only when the real search ends. Each carries a `fuel` bound, and running out of fuel is a separate outcome. Searches that would need more steps than the fuel are not modelled.
- Clause well-formedness is an assumption on the input. The clauses come from the caller, and `new Solver(goals, clauses)` (`Solver.cs:26-31`) accepts them unchecked. Two malformed inputs make the code throw, and the model does not model either exception:
  - duplicate `TyParams` make `ToDictionary` throw `ArgumentException` (`Solver.cs:73`, `Solver_ImplGoals.cs:266-267`);
  - a `BoundVar` in the target or trait that is not a type parameter makes `newVars[b]` throw `KeyNotFoundException` (`Solver.cs:74-75`, `Solver_ImplGoals.cs:268-269`).
  The preconditions `SolverImplGoals.WellFormed` and `LegacyCandidates.WellFormed` exclude such clauses, and `LegacySolver.Solve` requires `ClausesWellFormed`.
- Other `KeyNotFoundException`s are excluded by preconditions that the code establishes itself:
  - `BindsAll` holds wherever a candidate is built, because the `ContainsKey` test before `BuildCandidate` (`Solver.cs:83`, `Solver_ImplGoals.cs:280,308`, `Solver_NormGoals.cs:164,201,248`) checks it;
  - `StackResolved` and `ReuseResolved` are part of the search invariants, and every step the model proves keeps them.
- The older `_implGoalStack` is a `HashSet`. It is modelled by a list without duplicates in insertion order (`StackAdd`, `Dedup`). Code that depends on the set's iteration order is therefore modelled with one particular order.
- Record equality of terms, as `Equals` computes it, is `TermEquals`. It compares constants with `ConstName.Equals` and takes the receiver from the side `App.Equals` names. Reference identity appears only as the `sameObject` flag of `LegacyClauses.Equals`. The solver state of the current engine uses Dafny's structural `==` instead, see the next line.
- `ToDictionary` and `ToList` copies are implicit, because every Dafny value is immutable. Aliasing between a solver and its candidates is not modelled.
- SolverImplGoals.TryAddProvenImplGoal: the model copies the proven-goal lists; the source shares them. `this._provenImplGoals.ToDictionary()` (`Solver_ImplGoals.cs:18`, `Solver_NormGoals.cs:21`) copies the dictionary but not its `List<ProvenGoal>` values. So when the goal's node already has a list, `provenGoals[proofChain].Add(...)` (`Solver_ImplGoals.cs:242`) appends to the list held by the parent solver and by every sibling candidate. The node already has a list, for example, when a norm goal's requirement sits on the norm goal's own node (`Solver_NormGoals.cs:113-137`) and an application was recorded there earlier. `GetCandidates` builds all siblings eagerly (`Solver_ImplGoals.cs:292-316`), so an application one sibling records reaches the others' cycle checks. A descendant of candidate A that applies B's clause to arguments containing B's is refused by the source and accepted by the model. `SolverStates.Record` and this member state the copying behaviour only.
- The following are not part of this model and become parameters of the current engine's `Env`:
  - `CreateNormalizationGoals`, the hoisting of aliases into norm goals, is `env.hoist`;
  - `TryAddProvenGoal` for norm goals is `env.addProven`;
  - `Term.Contains`, the cycle test's containment, is `env.contains`;
  - the current `MaxRecursion` constant is `env.maxRecursion`.
- SolverImplGoals.TryReuseExistingProof: looks up the reuse cache with Dafny's structural `==` on `(Target, Trait)`. The source's `Dictionary` (`Solver_ImplGoals.cs:57-61`, `:178-179`) uses `Equals` and `GetHashCode`. `ConstName.GetHashCode` hashes only the raw data (`Const.cs:109-115`), and `Equals` identifies widths. So in the source a goal on `Vec<5u8>` hits the entry cached for `Vec<5u64>`, and in the model it misses and the clause is expanded afresh. The same holds for `SolverNormGoals.TryReuseExistingNorm` and the alias cache (`Solver_NormGoals.cs:62-63`, `:80`), for `SolverStates.RemoveFirst` and `List.Remove` (`Solver_ImplGoals.cs:15`, `Solver_NormGoals.cs:18`), and for `SolverImplGoals.FindRepeat` and `clause == pg.Clause` (`Solver_ImplGoals.cs:229`). The last one differs the other way too. The current `ImplClause` record (`Clauses/ImplClause.cs`) keeps the generated equality, which compares its `ImmutableArray` fields by reference. Two distinct clause objects with the same content are therefore different clauses in the source's cycle check and the same clause in the model's.
- SolverNormGoals.TryReuseExistingNorm: looks up the alias cache with Dafny's structural `==`, where the source's `Dictionary` uses `Equals` and `GetHashCode` (`Solver_NormGoals.cs:80`). An alias over `Vec<5u8>` therefore hits the entry cached for the same alias over `Vec<5u64>` in the source and misses it in the model, which reduces the alias afresh.
- The end-to-end expectations of `Tests/ImplTests.cs:8-91` and `Tests/NormTests.cs:8-37` are not stated as lemmas. Running a whole solve of the current engine needs `InternalRun`, the newer `RetrieveImplGoal` and `CreateNormalizationGoals`, which are not part of this model. The mechanisms those tests exercise are proved one step at a time:
  - the self-recursive `listEq` failing (Test3) rests on `SolverImplGoals.ExpansionBlocksRepeat` and `SolverImplGoals.NoParamsOncePerChain`;
  - reuse of a proven goal (Test2) is `SolverImplGoals.ReuseFacts`;
  - the growing `listEq` failing (Test4) rests on `SolverImplGoals.FindRepeat`, which refuses an application whose arguments contain the recorded ones;
  - the alias reduction and the irreducible fallback of the norm tests are `SolverNormGoals.NormExpansionRecords` and `SolverNormGoals.FallbackFacts`.
- The current `Solver.InternalRun` and `MaxIterations` do not appear in this model. The driver takes `InternalRun` as its `run` parameter, and the iteration counter it updates is modelled on its own in `IterationCounts`.
- The `Alias` and `BoundVar` record files do not appear in full. The terms `Alias` and `BoundVar` are modelled from their uses.
- `ImplClause.AssocConstraints` and `ImplConstraint.Substitute` do not appear in full. They are modelled from their call sites in `Solver_ImplGoals.cs`.
- `LogMsg`, `ToString`, `GetHashCode`, `Printer.cs`, `Z.cs` and `Program.cs` are left out: they print, hash or drive the engine and decide nothing. The unit tests in `Tests/MatchTests.cs` are restated as lemmas in `UnifierExamples`.
- `GetNormCandidates` is a lazy `IEnumerable` that the driver pulls one candidate at a time. It is modelled as an eager list. The model therefore draws fresh names for candidates the driver never reaches.
- `Debug.Assert` calls are not modelled.
- The current engine's solver modules model the corrected program only. They match through `Unifier.Corrected` and merge with `Merged`. The code as written is modelled only for `TermMatch.Merge` (`TermMatches.Merge`) and the unifier (`Unifier.AsWritten`); both are listed under "Findings". `SolverEqGoals.AsWrittenDrainLosesBinding` shows at the level of single matches what the as-written merge changes in the drain.
- SolverEqGoals.Solver.ProcessEquationGoals: computes the drain with the corrected unifier and the corrected merge. As written, `_match.Merge(match)` keeps only the last match's bindings, so for the eq goals `[?a = str, ?b = bool]` the source ends with `?a := str` alone, while the model keeps `?b := bool` too. The same holds for `SolverEqGoals.DrainOnce` and `SolverEqGoals.DrainLoop`.
- SolverImplGoals.GetCandidates: matches clause heads with the corrected unifier. Where the as-written right-variable branch accepts a head that has no unifier (`S<B, Foo>` against `S<?x, ?x>`), the source builds a candidate that the model does not. The same holds for `SolverImplGoals.TryClause`.
- SolverNormGoals.GetNormCandidates: matches clause heads with the corrected unifier, with the same difference as `GetCandidates`. The same holds for `SolverNormGoals.TryNormClause`.
- SolverEqGoals.Solver.ProcessEquationGoals: bounded by `fuel`, so it states the result of at most `fuel` turns of the loop.
- SolverDrivers.SolverDriver.Run: bounded by `fuel`, so it states the result of at most `fuel` turns of `while (true)`.
- LegacySolver.Solver.Run: bounded by `fuel`, so it states the result of at most `fuel` nested steps of the recursive search.

## Findings

| source | as written | input that shows it | evidently intended | confidence | as-written member | corrected member |
|---|---|---|---|---|---|---|
| InfEngine/Engine/Terms/TermMatch.cs:134-148 | the first loop fills `result` from `match` and the second loop overwrites it with `match` again, so the receiver's own bindings are dropped | receiver `?a := str` merged with `?b := bool` gives only `?b := bool` | the receiver's bindings rewritten by `match`, then `match`'s bindings | not executed | TermMatches.Merge | TermMatches.MergeCorrected |
| InfEngine/Engine/Terms/Term_Match.cs:116-137 | the right-variable branch binds `rv := left` but rewrites the pending pairs with `right`, the variable itself | `S<B, Foo>` against `S<?x, ?x>` succeeds with `?x := B`, under which `Foo` and `B` differ | rewrite the pending pairs with `left`, so the pair `Foo ~ B` is rejected | not executed | UnifierExamples.AsWrittenLosesEquation | UnifierExamples.CorrectedRejects |
