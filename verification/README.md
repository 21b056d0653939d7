# Verification of the subtype checker, the desugaring pass and the task protocols

Three parts of the system are modelled and proved here:

* **the Boolean-algebraic subtype checker** (`src/bas.rs`): `A <: B` is decided by normalising
  `A & ~B` to a disjunction of conjunctions of signed atoms and showing every conjunction empty;
  recursive types are compared under a growing set of coinductive hypotheses; a second relation is
  the gradual version of the first;
* **the desugaring pass** (`src/desugar.rs`): `$_` placeholders become lambdas, pipes become calls;
* **`await` and the oneshot channel** (`src/builtins_async.rs`): shared state updated between
  suspension points by any number of concurrent calls.

`dafny verify dfyconfig.toml` checks everything.

## How the model is built

Types, surface syntax and protocol states are datatypes. What the code computes is written as
functions (`Rdnf`, `Subtype`, `Unfold`, `ConsistentSubtype`, `Fingerprint`, `Desugaring`,
`Await.Step`, `Oneshot.Step`); the code's own loops, the hypothesis set it inserts into, the nodes it
rewrites in place, the stage vector it pushes to and the states it swaps under a lock are methods and
classes (`Rdnf`'s loops, `Checker`, `InPlace`, `Await.Runtime`, `Oneshot.Channel`), each proved to
compute exactly the function. The theorems are about the functions.

The size cap of a normal form (1024), the depth limit (256) and the function that keys hypotheses are
fields of `Types.Ctx`, so each theorem says which values it holds for; `Fingerprint.SourceCtx` has
the program's own. Termination of the checker on every input, including cyclic and unguarded recursive
types, is what the `decreases` clauses of `Subtype` and `Checker` establish: limit minus depth first,
the rank of the function second.

A run of the checker only meets components and unfoldings of the two types it starts from
(`Reachability.Reachable`). The theorems about recursive types ask for no more than that the keys tell
apart the recursive types met there; `SourceSoundness` states them for the program's own keys, with
the constructor names of the standard library or none in the environment. The methods of `Checker`
also log, in ghost state, every atom pair they ask about, so a statement about all questions of a run
is a statement about the log (`Checker.CheckClosed`). Between closed types a run meets finitely many
types, which can be computed from the written ones (`FiniteRuns.RunIsFinite`), and so can the condition on
the keys (`SourceSoundness.LosslessIff`).

The conditions of `SoundnessTheorem.AcceptanceSound` are sufficient, not necessary. Types are `Guarded`,
stay within the cap on the right and below `Neg`, and hold each recursive type alone in its row of the
normal form on the left and in the last row on the right, so `Int | List` may stand on either side. For
the keys, the cap, `Neg` together with recursion, and either condition on rows there is an accepted pair
outside the condition that values refute (`SourceSoundness.DeepTypesUnsound` and `Counterexamples`).

Independent meanings the checker is compared with: valuations of atoms (`RdnfMeaning.Holds`), sets of
finite values (`Values.In`), step-indexed structural subtyping (`Structural.SubUpTo`), derivations
from a set of rules (`Rules.Derivable`), expansions of recursive types to a finite depth
(`Expansion.Expand`), the precision order (`Gradual.LessPrecise`). The desugaring pass is compared with
a meaning of the surface tree that knows pipes and `$_` but not the pass (`Meaning.Sem`), over any
algebra of values.

What is accepted is bounded from both sides. From above: soundness for values and for structural
subtyping. From below: plain types are accepted exactly when the rules derive the pair
(`Rules.DecidesRules`); a literal or nominal type is accepted below a type with recursive members
exactly when it is included (`Heads.BasicBelowIff`); every regular type, recursive ones included, is
accepted below a copy of itself (`Reflexive.AcceptsCopyOfItself`); and between unions on the left and
intersections of unions on the right the strict relation implies the gradual one
(`GradualComplete.StrictImpliesConsistent`).

## Where code and documentation disagree

The model follows the code.

* `src/bas.rs:43-47` calls the size cap safe. It is outside `Neg`; beneath a `Neg` it makes the right
  side Top, its negation Never, and the check accepts (`Counterexamples.CapBeneathNegUnsound`).
  `SoundnessTheorem.AcceptanceSound` asks for the cap only on the right side and below `Neg`.
* `src/bas.rs:314-325` calls the fingerprint injective. It drops variadic flags, the value types of
  uniform tails, the names of row variables, the order of fields, the difference between an integer key
  and its decimal text, and everything below depth 64; two coded types share a text exactly when they
  are equal after erasing these (`Fingerprint.SameKeyIff`). A type is coded when its literals and names
  hold no closing parenthesis and its keys no colon and no leading bar; string literals outside that are
  misread (`Fingerprint.StringPayloadsCollide`).
* Because hypotheses are looked up by that text, acceptance itself is unsound where the text loses
  something: for maps of maps (`SourceSoundness.UniformTailUnsound`) and for 33 or more nested recursive
  types (`SourceSoundness.DeepTypesUnsound`). It is sound where no two recursive types met in the run
  differ only in what is erased (`StructuralAtSource`, `AcceptanceAtSource`), and for coded types that
  is exactly when the keys tell them apart (`KeysApartIff`).
* `doc/04-functions.md:328` calls desugaring idempotent. It is exactly when no visited literal is
  triple-quoted (`Idempotence.SecondRunIdle`).
* A hypothesis stays in the set after the comparison it was made for has failed, and a later atom pair
  of the same conjunction may use it; with two recursive members in a union on the right this accepts
  a pair that values refute (`Counterexamples.FailedHypothesisUnsound`). Only the pair scanned last can do
  no harm.
* A nominal type is declared disjoint from every recursive type, also from one that has it as a member
  (`Counterexamples.NominalRecursiveUnsound`). They are disjoint exactly when the written body offers no
  value of the nominal type outside records (`Disjointness.NominalRecursiveIff`); of all atoms declared
  disjoint these are the only ones that can share a value (`Disjointness.DisjointExact`).
* `src/bas.rs:1336-1341` reads a recursive type as equal to its unfolding. The check accepts it below a
  copy of itself, but neither always below its unfolding nor its unfolding below it, since the rows of
  a normal form are closed by a single pair of atoms. The unfolding is below the type exactly when
  every row of it is empty or holds one atom below the unfolding (`Folding.FoldIff`), which excludes an
  intersection of two records (`InterNotFolded`); the type is below its unfolding exactly when every
  choice of one atom from each row holds one that the unfolding is below (`UnfoldIff`), which excludes
  a union of two members (`UnionNotUnfolded`).
* Recursive types compared out of step go on until the depth limit: pairs that structural subtyping
  relates to every number of steps, but for which no hypothesis ever recurs, are rejected at every limit
  (`Rules.OutOfStep`). What is decided instead is derivability in as many steps as the limit allows.
* A nominal type is accepted below its own application and declared disjoint from it, so their
  intersection is accepted below Never (`Transitive.BelowAndDisjoint`).
* Gradual subtyping is not an extension of strict subtyping. An intersection of atoms on the left is
  accepted strictly and not consistent exactly when two members are declared disjoint and no member is
  consistent with the right side (`GradualComplete.StrictOnlyMeetIff`); an atom below a negated one
  exactly when the two are declared disjoint (`StrictOnlyNegIff`); arguments of applications are compared
  covariantly whatever was declared (`ArgumentsCovariant`). Nor is every type consistent with itself: an
  intersection with unions as members exactly when each of the unions is met by a member
  (`InterReflexiveIff`), which excludes `(A | B) & C` (`InterOfUnionNotSelf`).
* The unfolding does not substitute in uniform tails: the result of unfolding a closed type is closed
  exactly when no uniform tail refers to the binder (`Expansion.UnfoldClosedIff`).
* Against a uniform tail the gradual check takes an integer key for declared when its decimal text is
  a declared name, and the strict check does not (`StrictGradual.IntegerKeyCounterexample`); the two
  checks of the tail differ exactly when such a field misses the value type and every other field the
  strict check looks at meets it (`StrictGradual.TailChecksDifferIff`).
* Of two different literals only integers and floats are declared disjoint from their own kind, and no
  literal from one of another kind. With such literals acceptance is less than inclusion of values, by
  exactly the rows that no other pair of atoms makes empty (`Decision.DecidesInclusionIff`). For the same
  reason it is not transitive (`Transitive.BooleanTransitiveIff`).
* Dropping an `await` that holds the join handle leaves the empty dict it put under the lock, and later
  awaits return it (`Await.DropLeaksSentinel`).

## Model

| member | source | states |
|---|---|---|
| Rdnf.DistributeLoop | src/bas.rs:607-625 | the guarded cross product of two normal forms, Top once it would exceed the cap |
| Rdnf.ProductLoop | src/bas.rs:616-624 | the nested loop builds every pairing of a left and a right row, in order |
| Rdnf.NegateLoop | src/bas.rs:628-641 | the loop with its early exit on an empty row is De Morgan negation |
| Rdnf.ToRdnfLoop | src/bas.rs:542-603 | the loops over members build the normal form the theorems are about |
| RdnfMeaning.DistributeHolds | src/bas.rs:607-625 | a distributed form holds where both operands hold, and only there when it fits the cap |
| RdnfMeaning.NegateHolds | src/bas.rs:628-641 | a negated form holds wherever the form does not, and only there when no step exceeds the cap |
| RdnfMeaning.RdnfPreservesMeaning | src/bas.rs:542-603 | under every valuation of atoms, a type and its normal form agree when no distribution exceeds the cap |
| RdnfMeaning.RdnfOverApproximates | src/bas.rs:542-641 | under every valuation, a cap hit outside the operands of Neg only enlarges the normal form |
| Emptiness.DisjointSymmetric | src/bas.rs:1834-1973 | disjointness does not depend on the order of the two atoms |
| Emptiness.DisjointIrreflexive | src/bas.rs:1835-1837 | equal atoms are never disjoint, so the pointer test in front changes nothing |
| Emptiness.ConjunctionEmptyIff | src/bas.rs:1786-1831 | where no pair adds a hypothesis, a conjunction is empty iff its set of atoms holds two disjoint positives or a positive below a negative |
| Emptiness.RdnfEmptyIff | src/bas.rs:1766-1779 | a normal form is empty iff each of its conjunctions is, each from its own copy of the hypotheses |
| Emptiness.ProductMembers | src/bas.rs:616-624 | the rows of a product are exactly the pairings of rows |
| Emptiness.NegateMembers | src/bas.rs:628-641 | the rows of a negation are exactly the choices of one negated atom from every row |
| Emptiness.NegateAtomsComeFrom | src/bas.rs:628-641 | even over the cap negation invents no atoms |
| Emptiness.RdnfLeaves | src/bas.rs:542-603 | every atom of a normal form is a leaf of the type |
| Checker.Hypotheses.constructor | src/bas.rs:1984-1984 | a fresh hypothesis set holds exactly the pairs it is given |
| Checker.CheckSubtypeBas | src/bas.rs:1983-1986 | the entry point answers as specified, from no hypotheses |
| Checker.CheckSubtype | src/bas.rs:1996-2049 | the axioms for Error, Top, Never, Unknown and Var, then emptiness of the difference; the caller's hypotheses stay as they were |
| Checker.CheckRdnfEmpty | src/bas.rs:1766-1779 | the scan over conjunctions, each with a cloned hypothesis set |
| Checker.CheckConjunctionEmpty | src/bas.rs:1786-1831 | the two nested scans, and exactly the hypotheses they leave behind |
| Checker.CheckSubsumedBy | src/bas.rs:1822-1828 | the inner scan finds a negative the positive is below, and hands on the hypotheses of the pairs tried before |
| Checker.CheckSomeDisjoint | src/bas.rs:1814-1820 | the scan over pairs finds a disjoint pair iff there is one |
| Checker.CollectSigned | src/bas.rs:1796-1810 | the positive and the negative atoms of a conjunction, in order |
| Checker.CheckAtomSubtype | src/bas.rs:655-802 | the atom rules in the order the code tries them, with the hypotheses left behind |
| Checker.CheckStructurallyEqual | src/bas.rs:805-845 | the same-constructor rule, including the arm that asks again one level deeper in both directions |
| Checker.CheckStructure | src/bas.rs:686-802 | the arms after the same-constructor rule, in order |
| Checker.CheckUnfolded | src/bas.rs:732-754 | one recursive side is unfolded, two are compared under a hypothesis |
| Checker.CheckFnSubtype | src/bas.rs:848-942 | return types, arity guards, then the parameters contravariantly |
| Checker.CheckRecordSubtype | src/bas.rs:1001-1183 | fields by key, then the row tail |
| Checker.CheckTail | src/bas.rs:1098-1183 | the tail of the right record against tail and fields of the left |
| Checker.CheckFieldsUniform | src/bas.rs:967-994 | the fields the right record does not declare meet its uniform type |
| Checker.CheckAppSubtype | src/bas.rs:1234-1292 | heads first, then the argument by the variance at its spine depth |
| Checker.CheckRecursiveSubtype | src/bas.rs:1297-1334 | a known hypothesis accepts; otherwise it is added, for good, and the unfoldings are compared |
| AtomQuestions.AtomQuestion | src/bas.rs:1996-2049 | between two atoms the whole normalisation comes down to the atom rule |
| AtomQuestions.RowsQuestion | src/bas.rs:1786-2049 | between two unions of atoms, acceptance means every left atom is subsumed by the right ones |
| Values.UnfoldGuarded | src/bas.rs:1342-1354 | unfolding a guarded closed type gives a guarded closed type with one binder fewer at its head |
| Soundness.DisjointSound | src/bas.rs:1834-1973 | no value is in two guarded atoms declared disjoint, neither of them recursive |
| Soundness.EmptyByPair | src/bas.rs:1786-1831 | a row that holds of a value is only declared empty by a subsumed pair that is accepted under the hypotheses the scan started from |
| Soundness.SubtypeSound | src/bas.rs:1786-2049 | acceptance under valid hypotheses is inclusion of values |
| Soundness.RecursiveSound | src/bas.rs:1297-1334 | the hypothesis may be used below because values shrink, or the type has fewer binders at its head |
| SoundnessTheorem.AcceptanceSound | src/bas.rs:1297-1334 | an accepted pair of closed guarded types is an inclusion of finite values, also when the left type exceeds the cap outside Neg: Neg-free types whose reachable recursive types have different keys and stand alone in their rows on the left and in the last row on the right, or types without recursion |
| SoundnessTheorem.IndirectAdmissible | src/bas.rs:542-641 | the two conditions on rows hold of types without a recursive type as a direct member of a Boolean node |
| SoundnessTheorem.UnionAlone | src/bas.rs:549-561 | on the left any members of a union may be recursive |
| SoundnessTheorem.UnionLast | src/bas.rs:549-561 | on the right the last member of a union may be |
| Disjointness.NominalRecursiveIff | src/bas.rs:1907-1914 | a nominal type and a recursive one are always accepted as disjoint, and share a value exactly when the written body offers one outside records |
| Disjointness.DisjointExact | src/bas.rs:1834-1973 | two guarded atoms declared disjoint share a value exactly when they are such a pair |
| Disjointness.NominalDisjointIff | src/bas.rs:1834-1973 | a nominal type is declared disjoint from a nominal type, a literal or a record exactly when they share no value |
| Disjointness.RecursiveDisjointIff | src/bas.rs:1907-1914 | a recursive type is declared disjoint from nominal types and from no other atom |
| Disjointness.OffersNominalIff | src/bas.rs:1907-1914 | what the body offers is decided by its literals and one fresh value of the nominal type |
| SourceSoundness.AcceptanceAtSource | src/bas.rs:1297-1334 | the same with the program's fingerprints, cap and limit, when no two recursive types met differ only in what fingerprints leave out |
| SourceSoundness.StructuralAtSource | src/bas.rs:1297-1334 | so is structural subtyping to every number of steps |
| SourceSoundness.KeysApartIff | src/bas.rs:326-524 | on runs over coded types the keys tell recursive types apart exactly when no two of them have one erasure |
| FiniteRuns.SubstClose | src/bas.rs:1358-1701 | unfolding a closed-up subterm is closing its body with one more enclosing type |
| FiniteRuns.RunIsFinite | src/bas.rs:655-1354 | between closed types with closed uniform tails the types a run meets are exactly the finitely many closed-up subterms |
| SourceSoundness.LosslessIff | src/bas.rs:326-524 | for closed types, nested recursion included, the condition on fingerprints is a check over those subterms |
| SourceSoundness.TreesOfLists | src/bas.rs:1297-1334 | it holds of trees that hold lists of trees |
| SourceSoundness.KeyedRuns | src/bas.rs:326-524 | the condition holds of types whose recursive parts lose nothing and are not nested, whatever their uniform tails refer to |
| SourceSoundness.UniformTailUnsound | src/bas.rs:1317-1334 | as the program runs, maps of maps of different nominal types are accepted, although structural subtyping fails within five steps |
| SourceSoundness.DeepTypesUnsound | src/bas.rs:331-333 | as the program runs, 33 or more nested recursive types around Int are accepted below as many around String, with a value of the left outside the right |
| Reachability.ReachableClosed | src/bas.rs:655-1334 | the types reachable from two arguments include both and are closed under components and unfolding |
| Reachability.ReachableLeast | src/bas.rs:655-1334 | and they are the least such set |
| Reachability.DifferenceAtomsMet | src/bas.rs:2046-2048 | the atoms a question comes down to are among them |
| Counterexamples.FailedHypothesisUnsound | src/bas.rs:1822-1824 | with two recursive members of a union, a failed hypothesis is reused and a refuted pair is accepted |
| Counterexamples.NominalRecursiveUnsound | src/bas.rs:1907-1914 | a nominal type meets a recursive type in a value, and their intersection is accepted below Never |
| Counterexamples.NegRecursiveUnsound | src/bas.rs:1907-1914 | so a recursive type is accepted below the negation of one of its members |
| Counterexamples.CapBeneathNegUnsound | src/bas.rs:607-641 | at the program's cap, eleven two-member unions on the right accept a nominal type that is in none of them |
| Counterexamples.BelowNegationIff | src/bas.rs:1786-2049 | an atom is accepted below the negation of another iff the two are declared disjoint |
| Decision.DecidesInclusionIff | src/bas.rs:1786-2049 | over nominal types and all literals with all Boolean connectives, acceptance is exactly inclusion of values together with emptiness of every row that holds two different literals not declared disjoint |
| Decision.DecidesInclusion | src/bas.rs:1786-2049 | with integer literals only, acceptance is exactly inclusion of values |
| Decision.BlindLiterals | src/bas.rs:1834-1973 | different literals are not declared disjoint exactly when they are not two integers and not two floats |
| Decision.Inhabited | src/bas.rs:1786-1831 | a conjunction that is not declared empty and holds no such pair has a value |
| Decision.ClashHasNoValue | src/bas.rs:1786-1831 | a conjunction that is declared empty has none |
| Decision.LiteralsIncomplete | src/bas.rs:1834-1973 | two such literals have no common value, and their intersection is not accepted below Never |
| Structural.CoinductivelySound | src/bas.rs:1297-1334 | without Boolean connectives an accepted pair satisfies structural subtyping to every number of steps, when keys tell apart the recursive types reachable from it |
| Structural.CoinductivelySoundIn | src/bas.rs:1297-1334 | the same over any set of types closed under components and unfolding |
| Structural.AtomAcceptedUpTo | src/bas.rs:655-802 | so does every accepted atom pair, and the hypotheses it leaves behind stay true |
| Structural.HypothesisUpTo | src/bas.rs:1317-1334 | a hypothesis may be used while it is being proved, because it holds one step earlier |
| Structural.FnAcceptedUpTo | src/bas.rs:848-942 | for functions |
| Structural.RecordAcceptedUpTo | src/bas.rs:1001-1183 | for records with every kind of tail |
| Structural.AppAcceptedUpTo | src/bas.rs:1234-1292 | for applications, with the hypotheses the heads add |
| Spines.LooksUpDeclared | src/bas.rs:1207-1275 | the variance used for an argument is the one declared for that parameter of the head of the spine, and Invariant when the head, its entry or the parameter is missing |
| Spines.SpinesDisjointIff | src/bas.rs:1924-1973 | types with nominal heads are declared disjoint exactly when the heads or the numbers of arguments differ, whatever the arguments |
| Spines.StructuralDisjointIff | src/bas.rs:1834-1973 | among functions, records and such applications, a function is declared disjoint from the other two, and two applications when heads or lengths differ |
| Rules.AcceptedIffDerivable | src/bas.rs:655-1334 | on plain types, acceptance under the keys of some pairs is derivability from these pairs in as many steps as the depth limit leaves: width, depth, contravariance, declared variance, unfolding |
| Rules.DecidesRules | src/bas.rs:1983-2049 | so a plain pair is accepted iff the rules derive it within the limit, when keys tell apart the recursive types reachable from it |
| Rules.OutOfStep | src/bas.rs:1297-1334 | two recursive types out of step, related to every number of steps and rejected at every limit |
| Heads.BasicBelowIff | src/bas.rs:655-802 | a literal or nominal type is accepted below a guarded type without Neg at its head, recursive members included, iff all its values are in it |
| Heads.PositiveQuestion | src/bas.rs:1786-2049 | against such a type the question is the Boolean reading of the questions about its atoms |
| Folding.FoldIff | src/bas.rs:732-754 | an unfolding is accepted below its recursive type iff every row of it is empty or holds one atom below the unfolding |
| Folding.UnfoldIff | src/bas.rs:732-754 | a recursive type is accepted below its unfolding iff every choice of one atom from each row holds one that the unfolding is below |
| Folding.FoldAccepted | src/bas.rs:732-754 | an unfolding that is a union of atoms is accepted below its type |
| Folding.UnfoldAccepted | src/bas.rs:732-754 | a type whose unfolding is one intersection of atoms is accepted below it |
| Folding.UnionNotUnfolded | src/bas.rs:732-754 | a recursive union of two members is not accepted below its unfolding |
| Folding.InterNotFolded | src/bas.rs:732-754 | the unfolding of a recursive intersection of two records is not accepted below it |
| Structural.DanglingRejected | src/bas.rs:676-682 | two unbound references are compared until the depth limit and rejected |
| Lattice.NormalFormDecides | src/bas.rs:2003-2049 | for ordinary types the axioms in front never change what the normal form says |
| Lattice.AcceptedIffRefuted | src/bas.rs:1786-1831 | acceptance means every left row clashes with every choice through the right rows |
| Lattice.InterHitSplits | src/bas.rs:607-641 | a choice through an intersection is a choice through one of its members |
| Lattice.GradualTypesRejected | src/bas.rs:2003-2030 | the strict relation takes Unknown only below Top and above Never, and Error nowhere |
| Lattice.UnionBelow | src/bas.rs:549-561 | a union is below a type iff every member is |
| Lattice.BelowUnion | src/bas.rs:549-561 | below a member is below the union |
| Lattice.InterBelow | src/bas.rs:563-578 | an intersection is below whatever a member is below |
| Lattice.BelowInter | src/bas.rs:563-578 | a type is below an intersection iff it is below every member |
| Lattice.SelfLoopRejected | src/bas.rs:839-842 | as atoms, two Boolean types of the same kind are only ever rejected |
| Expansion.SubstScoped | src/bas.rs:1358-1701 | substitution removes its binder exactly when no uniform tail refers to it |
| Expansion.UnfoldClosedIff | src/bas.rs:1342-1701 | the unfolding of a closed type is closed iff no uniform tail holds its reference |
| Expansion.UniformTailLeftDangling | src/bas.rs:1342-1701 | a closed type whose unfolding is not closed |
| Expansion.ExpandSubst | src/bas.rs:1358-1701 | under any binders, substituting first or expanding in place gives the same finite expansion |
| Expansion.UnfoldKeepsExpansion | src/bas.rs:1342-1701 | a type and its unfolding have the same expansion to every depth, variadic flags included |
| Expansion.ClosedAtoms | src/bas.rs:723-730 | the atoms of one closed type's normal form are closed and no references |
| Expansion.TightSteps | src/bas.rs:655-1354 | closed types with closed uniform tails are closed under members, operands, fields, tails, parameters, results, heads, arguments and unfolding |
| Expansion.ClosedRun | src/bas.rs:655-1354 | so every type a run from two of them meets is closed and no reference |
| Checker.CheckClosed | src/bas.rs:723-730 | and every atom question of the run, as logged, is between two such types |
| Gradual.PrecisionMonotone | src/bas.rs:2231-2474 | replacing any parts of either type by Unknown preserves consistent subtyping |
| Gradual.FnMonotone | src/bas.rs:2231-2474 | through contravariant parameters |
| Gradual.RecordMonotone | src/bas.rs:2054-2225 | through fields and row tails |
| Gradual.FuelIrrelevant | src/bas.rs:2231-2474 | without recursive types the unfolding bound of the model plays no part |
| StrictGradual.StrictRefinesGradual | src/bas.rs:2231-2474 | on fully static types, integer keys included, consistent subtyping implies strict subtyping when every field whose integer key has a declared text meets the uniform type it is compared with, at the record pairs the comparison meets |
| StrictGradual.ConsistentImpliesStrict | src/bas.rs:2054-2474 | the same at any depth and with any hypotheses |
| StrictGradual.TailChecksDifferIff | src/bas.rs:2192-2225 | where the parts agree, the gradual check of a uniform tail accepts and the strict one rejects iff such a shadowed field misses the value type and every field that misses it is shadowed |
| StrictGradual.IntegerKeyCounterexample | src/bas.rs:2192-2225 | a consistent pair with a shadowed integer key that the strict check rejects |
| GradualComplete.StrictImpliesConsistent | src/bas.rs:2231-2474 | with an empty environment strict acceptance implies the gradual one, between types whose left side has unions and whose right side has intersections of unions, in functions, records and tails as well |
| GradualComplete.StrictIffConsistent | src/bas.rs:2231-2474 | so there the two relations agree, when no shadowed integer key misses its uniform type and the depth limit is not reached |
| GradualComplete.InterBelowAtomIff | src/bas.rs:1786-1831 | an intersection of atoms is accepted strictly below an atom iff two members are declared disjoint or one member is accepted alone |
| GradualComplete.StrictOnlyMeetIff | src/bas.rs:2397-2405 | an intersection of atoms on the left is accepted strictly and not consistent iff two members are declared disjoint and none is consistent with the right side |
| GradualComplete.StrictOnlyNegIff | src/bas.rs:2231-2474 | an atom is accepted strictly below a negated atom iff the two are declared disjoint, and is never consistent with it |
| GradualComplete.ConsistentReflexive | src/bas.rs:2231-2474 | self-comparison of unions and intersections of atoms, Unknown parts and recursive types included, is consistent |
| GradualComplete.CommonRefinement | src/bas.rs:2231-2474 | two gradual types with a common static refinement of that form are consistent |
| GradualComplete.InterReflexiveIff | src/bas.rs:2307-2405 | an intersection whose members are self-consistent types and unions of them is consistent with itself iff every union has a member that some member of the intersection is consistent with |
| GradualComplete.InterOfUnionNotSelf | src/bas.rs:2307-2405 | such an intersection that is not |
| GradualComplete.AliasConsistent | src/bas.rs:2414-2438 | an alias is consistent with its body both ways, while the strict relation rejects both |
| GradualComplete.ArgumentsCovariant | src/bas.rs:2266-2287 | arguments of applications are compared covariantly, whatever is declared |
| GradualComplete.AnyFunction | src/bas.rs:2340-2353 | every function is consistent with the variadic function without parameters, whatever the results |
| GradualComplete.VariableConsistent | src/bas.rs:2245-2472 | a variable is consistent with every type but Error, unions, intersections and recursive types decided before it |
| GradualComplete.UnfoldedConsistent | src/bas.rs:2294-2305 | a recursive side is unfolded: a nominal type is consistent with a recursive union of it, and not the reverse |
| Reflexive.AcceptsCopyOfItself | src/bas.rs:1786-1831 | every Boolean combination of structural atoms and recursive types, nested ones included, is accepted against a separately allocated copy of itself |
| Reflexive.SubtypeReflexive | src/bas.rs:1297-1334 | so is every subterm, closed up by the recursive types around it, once these are hypotheses |
| Reflexive.ComplementaryPair | src/bas.rs:628-641 | every row of a type together with every choice through its negation holds an atom and its negation |
| Transitive.SubtypeTransitive | src/bas.rs:2003-2049 | acceptance is transitive on literals, nominal types, non-variadic functions and records with closed or variable tails |
| Transitive.FnTransitiveIff | src/bas.rs:905-934 | for functions, exactly when the left one is variadic or has the arity of the right one |
| Transitive.VariadicBreaksTransitivity | src/bas.rs:905-934 | three functions for which it fails |
| Transitive.RecordTransitiveIff | src/bas.rs:967-1183 | for records with any tails, exactly when an absent tail in the middle leaves the outer tails compatible and every field that only the outer comparison constrains meets the uniform type |
| Transitive.AbsentTailBreaksTransitivity | src/bas.rs:1107-1111 | three records for which the first half fails |
| Transitive.AppTransitiveIff | src/bas.rs:655-802 | between literals, nominal types and their curried applications, exactly when no literal is below an application, the right one has at most one argument more, and arguments that a longer middle application compares under a weaker variance meet |
| Transitive.ApplicationBreaksTransitivity | src/bas.rs:777-787 | a literal, its type and an application of it |
| Transitive.CurryingBreaksTransitivity | src/bas.rs:777-787 | a nominal type, its application and a second one |
| Transitive.VarianceBreaksTransitivity | src/bas.rs:1234-1292 | three applications whose last parameters vary differently |
| Transitive.SpinesBelowIff | src/bas.rs:1234-1292 | an application is accepted below one of the same length iff the heads are equal and every argument is below as its declared variance asks |
| Transitive.UndeclaredInvariant | src/bas.rs:1269-1276 | where no variance is declared, accepted applications have arguments accepted in both directions |
| Transitive.BelowAndDisjoint | src/bas.rs:777-787 | a nominal type is accepted below its application, and their intersection below Never |
| Transitive.BooleanTransitiveIff | src/bas.rs:1786-2049 | for Boolean combinations of nominal types and literals, exactly when every row of the outer difference with two literals not declared disjoint is empty on another account |
| Transitive.LiteralsBreakTransitivity | src/bas.rs:1834-1973 | two literals of different kinds, their types, and Never |
| Transitive.VariableBreaksTransitivity | src/bas.rs:2033-2036 | an inference variable is above and below any two nominal types |
| Transitive.UniformTailBreaksTransitivity | src/bas.rs:967-994 | three records for which the second half fails |
| DepthLimit.SubtypeMonotone | src/bas.rs:1996-2049 | more remaining depth and more hypotheses accept at least as much |
| DepthLimit.AtomMonotone | src/bas.rs:655-802 | also atom by atom, with at least the hypotheses left behind |
| DepthLimit.RaisingTheLimit | src/bas.rs:662-664 | raising the limit never turns an acceptance into a rejection |
| Text.DecimalInjective | src/bas.rs:343-346 | decimal texts determine integers |
| Fingerprint.PrintErased | src/bas.rs:326-524 | for every type, what the erasure drops does not change the text |
| Fingerprint.PrintPrefix | src/bas.rs:326-524 | on coded types the text is a prefix code for what erasure keeps |
| Fingerprint.SameKeyIff | src/bas.rs:326-524 | coded types have one key exactly when they are equal after erasing variadic flags, uniform value types, row variable names, field order, the kind of a key and everything below depth 64 |
| Fingerprint.IntKeyCoded | src/bas.rs:451-452 | an integer key is always coded |
| Fingerprint.FingerprintInjective | src/bas.rs:326-524 | coded types that lose nothing and share a key are equal, so a hypothesis found is the hypothesis made |
| Fingerprint.UniformTailsCollide | src/bas.rs:466-486 | records that differ in their uniform type have one fingerprint |
| Fingerprint.IntegerKeysCollide | src/bas.rs:441-465 | and records that differ in an integer key against its decimal text |
| Fingerprint.StringPayloadsCollide | src/bas.rs:364-369 | any union of two string literals has the text of a union of one |
| Fingerprint.VariadicFlagCollides | src/bas.rs:422-439 | functions that differ in being variadic have one fingerprint |
| Fingerprint.DeepTypesCollide | src/bas.rs:331-333 | so do types that differ below the depth bound |
| InPlace.StageVec.constructor | src/desugar.rs:446-446 | a new stage vector is empty |
| InPlace.StageVec.Push | src/desugar.rs:506-506 | a leaf stage goes to the end |
| InPlace.StageVec.CollectPipeStages | src/desugar.rs:483-508 | pushing and retagging in place appends the stages of the tree and touches nothing before them |
| InPlace.Slot.constructor | src/desugar.rs:76-78 | a slot holds its node |
| InPlace.Slot.WrapInLambda | src/desugar.rs:187-212 | the node becomes the body of a lambda binding `_`, at its own span |
| InPlace.Slot.TryWrap | src/desugar.rs:107-164 | wraps iff a wrapping rule applies to the raw children |
| InPlace.Slot.DesugarSurface | src/desugar.rs:87-101 | rewriting in place computes the desugared node |
| InPlace.Slot.RecurseChildren | src/desugar.rs:218-415 | the children are rewritten at the depth each form prescribes |
| InPlace.Slot.DesugarPipeChain | src/desugar.rs:444-471 | collecting, desugaring the stages and folding replaces the expression and keeps the span |
| InPlace.AnyDirect | src/desugar.rs:113-118 | finds a DIRECT argument iff there is one |
| InPlace.AnyValueDirect | src/desugar.rs:129-132 | finds a DIRECT dict value iff there is one |
| InPlace.DesugaredAll | src/desugar.rs:316-321 | the loop over arguments |
| InPlace.DesugaredEntries | src/desugar.rs:301-306 | the loop over dict entries |
| InPlace.DesugaredEntry | src/desugar.rs:418-423 | key and value of an entry |
| InPlace.DesugaredStages | src/desugar.rs:450-452 | every stage on its own, with its bar |
| Pipes.CollectInOrder | src/desugar.rs:483-508 | however the tree associates, the stages are its leaves in source order, each with the bar in front of it |
| Pipes.AssociationIrrelevant | src/desugar.rs:444-471 | two pipe trees over the same leaves and bars desugar to the same node |
| Pipes.KthCallCarriesKthBar | src/desugar.rs:454-470 | the fold nests to the left, and the k-th call carries the k-th bar |
| Pipes.StageBecomesCall | src/desugar.rs:519-577 | a stage is extended as a call iff it was written as a call that is not closed into a lambda, or is a string the pass makes a call of |
| Pipes.PipeMeansFeeding | src/desugar.rs:444-577 | under every compositional evaluator the result is feeding the first value through the later stages, last into a call and alone otherwise |
| Pipes.StringStageTakesExtraArgument | src/desugar.rs:526-543 | a value piped into an interpolated string becomes a second argument of `tmpl` |
| Meaning.DesugarMeans | src/desugar.rs:87-577 | in every algebra of values, the desugared tree means what the surface tree means: a form that holds an unbound `$_` is the function of it, a pipe feeds its first value through the other forms in order, and every other form means what its parts mean |
| Meaning.HoleIsParameter | src/desugar.rs:87-212 | the lambda made from such a form, applied to `v`, means the form with `$_` read as `v` |
| Meaning.WrapsIffHolds | src/desugar.rs:107-181 | the wrapping rules match exactly the forms that hold `$_` as an argument, dict value, access target or callee of their own |
| NormalForm.SpanKept | src/desugar.rs:187-212 | every node keeps its span, and a wrapped one becomes a lambda of `_` alone whose body has it too and is no such lambda |
| NormalForm.DirectNotCreated | src/desugar.rs:167-181 | desugaring never makes an expression DIRECT |
| NormalForm.Establishes | src/desugar.rs:87-415 | afterwards no pipe is left, every DIRECT argument, value and target is under a `_` binder, no synthesised lambda is below one, and without triple quotes every string is final |
| NormalForm.PipeBecomesCall | src/desugar.rs:444-471 | every pipe becomes a call |
| Idempotence.FixedIffSettled | src/desugar.rs:87-415 | a tree in normal form is unchanged by the pass iff no literal in it is left to rewrite |
| Idempotence.TriplesStayUnsettled | src/desugar.rs:239-270 | a triple-quoted literal leaves one to rewrite |
| Idempotence.SecondRunIdle | src/desugar.rs:87-415 | desugaring twice is desugaring once iff no visited literal is triple-quoted |
| Await.Runtime.constructor | src/builtins_async.rs:246-250 | a new task is pending and nobody awaits it |
| Await.Runtime.TakeLock | src/builtins_async.rs:294-375 | swapping in the sentinel either starts the race with the handle in hand or puts a finished state back |
| Await.Runtime.ReceiveJoin | src/builtins_async.rs:320-356 | the outcome, or the panic as an error, is cached without diagnostics and returned with them |
| Await.Runtime.ObserveCancel | src/builtins_async.rs:330-337 | the cancellation is cached and returned |
| Await.Runtime.DropFuture | src/builtins_async.rs:294-316 | dropping the racing await releases the lock and leaves the sentinel |
| Await.StepKeepsInv | src/builtins_async.rs:293-375 | every step keeps the lock, agreement and diagnostics invariants |
| Await.AwaitAgreement | src/builtins_async.rs:293-375 | over every run all completed awaits report one outcome: a legitimate one, or the empty dict if the handle was lost |
| Await.LostIffHolderDropped | src/builtins_async.rs:293-375 | the handle is lost exactly in the runs that drop an await while it races |
| Await.SentinelNeverReturned | src/builtins_async.rs:293-375 | in every other run an await returns the task's outcome or a cancellation |
| Await.FirstOutcomeIsFinal | src/builtins_async.rs:340-375 | the first outcome reported is the one every later await reports |
| Await.DiagnosticsReachOne | src/builtins_async.rs:345-351 | the task's diagnostics reach at most one awaiter, whole |
| Await.OneDecides | src/builtins_async.rs:293-375 | if an await returned and the handle was not lost, one await of those returned decided: with the task's end and its diagnostics, or with the cancellation it observed |
| Await.DiagnosticsReachExactlyOne | src/builtins_async.rs:320-375 | if the task's own outcome was reported, exactly one await received the diagnostics, whole, and the others none |
| Await.HolderGetsOutcome | src/builtins_async.rs:318-356 | over runs: an await that races when the task ends, and is neither cancelled nor dropped, returns that end with its diagnostics |
| Await.CausedByEvents | src/builtins_async.rs:293-375 | a state's cancellations and the task's end are those of the events |
| Await.AwaitRun | src/builtins_async.rs:293-375 | a run in which the first await gets outcome and diagnostics and the second the outcome alone |
| Await.DropLeaksSentinel | src/builtins_async.rs:293-316 | a run in which the task returns 42 and an await returns the empty dict |
| Oneshot.Channel.constructor | src/builtins_async.rs:561-598 | both endpoints are in their cells |
| Oneshot.Channel.SendValue | src/builtins_async.rs:561-598 | the sender is taken first; the value is sent iff it was there and the receiving endpoint lives |
| Oneshot.Channel.TakeReceiver | src/builtins_async.rs:745-754 | the endpoint leaves its cell, or the call reports it used |
| Oneshot.Channel.Deliver | src/builtins_async.rs:756-769 | the value in flight is returned and the endpoint is gone |
| Oneshot.Channel.ObserveCancel | src/builtins_async.rs:757-765 | a cancelled receive drops the endpoint and whatever is in flight |
| Oneshot.Channel.TryReceive | src/builtins_async.rs:1409-1545 | the four answers of a non-blocking receive, and when the endpoint is put back |
| Oneshot.StepKeepsInv | src/builtins_async.rs:561-1545 | every step keeps the endpoint, sender, value and closing invariants |
| Oneshot.SingleDelivery | src/builtins_async.rs:561-1545 | over every run at most one send succeeds and at most one receive returns a value, the one sent |
| Oneshot.AnswersExplained | src/builtins_async.rs:561-1545 | over every run each answer has its cause: a value was sent, a cancelled receive was cancelled, a missing endpoint was spent, a closed channel lost its sender unsent |
| Oneshot.SentValueAccountedFor | src/builtins_async.rs:561-1545 | a sent value is in flight while the endpoint lives; otherwise a receive returned it, or its receive was cancelled or dropped by an event of the run, or the receiver was |
| Oneshot.CallsAnswered | src/builtins_async.rs:741-1545 | after every run, what the next step of a receive answers is decided by what was sent and spent |
| Oneshot.SendsAnswered | src/builtins_async.rs:561-598 | the next send is refused iff the sender is gone, and arrives iff the receiving endpoint lives |
| Oneshot.HeldReceiveGetsValue | src/builtins_async.rs:756-769 | over runs: a value sent to a receive that holds the endpoint is what that receive returns, unless the run cancels or drops it |
| Oneshot.ContendedChangesNothing | src/builtins_async.rs:1405-1450 | a contended non-blocking receive answers empty and changes nothing else |
| Oneshot.SpentExactlyBy | src/builtins_async.rs:561-1545 | which events use up the endpoint and the sender |
| Oneshot.StaysSpent | src/builtins_async.rs:561-1545 | a spent endpoint never comes back |
| Oneshot.ReceiveRun | src/builtins_async.rs:741-769 | a run in which a blocked receive returns the value sent |
| Oneshot.ClosedMeansNeverSent | src/builtins_async.rs:775-789 | a receive told the sender is gone is right |
| Oneshot.EmptyTryKeepsEndpoint | src/builtins_async.rs:1414-1510 | over runs: after an uncontended empty answer the next send succeeds, and the next uncontended non-blocking receive returns its value |
| Oneshot.ContendedEmptyAfterDelivery | src/builtins_async.rs:1414-1450 | a contended receive answers empty even after a delivery has used the endpoint up |
| Oneshot.ContendedRun | src/builtins_async.rs:1414-1450 | such a run |
| Oneshot.NothingAfterDelivery | src/builtins_async.rs:741-789 | after a delivery every receive is told the endpoint is gone |

## Left out

- Fingerprint.SameKeyIff: for coded types, and for an environment with the constructor names of the standard library or without them; outside the coded types a collision is shown instead.
- Nominal variants, type-stage applications, operators, representations, schemes and phantom types, and the alias-body arms that only they reach: they rest on definitions outside the three files. The alias arm for two nominal types is unreachable, as the same-constructor arm comes first (`src/bas.rs:676`).
- Malformed or absent payloads and functions without a payload: a type is a well-formed datatype value. Negative indices, and ids and indices of 2^32 or more, do not occur in it.
- Pointer identity, except as the flag `shared` on the entry point: below it the code compares freshly allocated copies.
- Closed row tails come in two encodings in the code, with two texts in a fingerprint; the model has one.
- `Values.In` reads closed records width-open, as the checker's field rule does.
- ConsistentSubtype.Consistent: recursive against non-recursive types is unfolded at most `fuel` times, because the code has no bound there and need not terminate; the shortcut for two types in the same allocation is absent.
- Soundness with respect to values of function and application types: a value has no function or container form; for those types `Structural.CoinductivelySound` says what acceptance means.
- Rules.DecidesRules: applications headed by something else than a nominal type, whose heads may add hypotheses, are covered by `Structural.CoinductivelySound` only.
- GradualComplete.StrictImpliesConsistent: non-variadic functions and no applications, because the gradual relation ignores declared variance and accepts every function below an empty variadic one; the witnesses `ArgumentsCovariant` and `AnyFunction` show what happens there.
- Meaning.DesugarMeans: an algebra sees no spans and no bars of calls; where the spans and bars go is stated by `NormalForm.SpanKept` and `Pipes.KthCallCarriesKthBar`.
- Interpolated strings: the scan over the template copies every character, so the template is the content.
- Syntax forms whose children are all entered at the same depth and that no wrapping rule mentions are one constructor, `Group`; annotations, resolution data and the let bindings of match arms are not entered by the pass and are opaque.
- The desugaring methods give every child its own slot and write the result back; sharing of unmodified subtrees is not modelled.
- An awaiter's own diagnostics from evaluating its argument, and type mismatches, are not part of `Await`; the mutex, the join handle, the cancellation token and the oneshot cell are taken as primitives with their documented behaviour.
- Channels, broadcast, timers, signals, deadlines, drain and the runtime glue: I/O and library scheduling.
