# LADR terms, clauses and formulas: a model in Dafny

LADR is the library under the theorem prover Prover9. This project models the algorithms at
its core and proves what they are for. Each of them decides something, keeps the meaning of
something, or is a fast form of something simple.

* **Decision procedures.** `LatticeFilter` is Whitman's procedure for identities of lattices,
  `OrthoFilter` and `OrthoTheorem` are Bruns's for ortholattices. Both are proved to accept exactly
  the identities: soundness over any carrier, completeness by a term model made of ideals.
* **Linear Diophantine equations.** `Diophantine` and `Dioph` are the bounded search for the minimal
  solutions behind AC unification, on arrays and with Huet's pruning; `Combos` holds the three
  iterators over the admissible subsets of a basis. `Vectors` orders vectors the way the odometers count.
* **Clausification.** `Formulas`, `Simplify`, `Distribute` and `Cnf` are normal forms by distribution;
  `CnfCount` says what is counted beforehand; `CnfDef` and `Definitions` are renaming with definitions; `Structures`, `Substitution`, `Skolem`,
  `UniqueVars`, `Miniscope` and `MiniscopeNormal` treat quantifiers in first-order structures.
* **Demodulation.** `DiscrimTree`, `FlatRetrieval`, `BindRetrieval` and `GeneralizationIndex` are the
  discrimination tree and the two ways of retrieving from it, `Flatterm` the prefix form of terms,
  `FlatDemod` innermost rewriting with its record of steps, and `Replay`, `ParticularDemod` and
  `DemodReplay` redoing them; `RewriteSoundness` says what a step means.
* **Associative-commutative normal forms.** `AcTheory` says what equality modulo the laws is and that
  the normal form decides it; `AcCanon` and `AcCanonical` compute that form in two ways;
  `AcRedundancy` removes equations that the laws make true.
* **Indexes and stores.** `Subsume`, `Features`, `DiTree` and `SubsumptionIndex` are feature-vector
  subsumption; `FpaChunk` and `FpaList` are chunked lists of IDs; `PageTable`, `ClauseIds` and
  `ClauseStore` are the table of clause IDs and the archive; `Compress` is the binary code of terms.

`Terms` has terms, substitutions and matching for all of them. Code that works by changing things
step by step is modelled by methods and classes with loops and explicit stacks; each is proved
against a function, and the theorems are about that function.

## Where the code and its documentation differ

The model follows the code. These differences came out of the proofs; the lemmas named state them.

* `dio` never returns 0 (`Dioph.Dio`). `next_combo_a` never gives the empty subset, which is
  admissible for a problem without columns (`Combos.EmptyAdmissible`).
* Retrieval with flatterms misses answers when a key is a variable and another one matches
  (`GeneralizationIndex.AnswersMissed`, with a run in `VariableKeyStops`); retrieval with ordinary
  terms does not.
* `particular_demod` loses a rewrite of a whole atom (`ParticularDemod.ParticularDemod`).
* `distribute` misreads a disjunction with one argument, and `disjoin_flatten_simplify` makes such
  disjunctions (`Simplify.DisjoinItself`). `cnf` and `cnf_def` get there with
  ((a & b) or (a & -b)) & ((a & c) or (a & -c)) as an argument of a disjunction (`Cnf.MisreadInput`,
  `CnfDef.DefMisreadInput`); exactly when they do is `Cnf.FailsIffMisread` and
  `CnfDef.DefFailsIffMisread`. `miniscope` never does.
* `cnf_max_clauses` looks through quantifiers and `cnf` does not (`Cnf.LeafBound`,
  `Cnf.QuantifiedTruthUncounted`).
* `introduce_definition` drops variables from MAX_VARS on (`Definitions.UncollectedVariable`); when
  that matters is `Definitions.DefinitionExists`.
* `skolemize` is unsound where an existential scope binds a universal variable around it
  (`UniqueVars.RebindingUnsound`), and the names made unique can capture names that look like
  generated ones (`UniqueVars.GeneratedNameCaptured`).
* `miniscope` can leave a quantifier on a conjunction or on FALSE (`Miniscope.LeftOver`).
* `cac_tautology` keeps instances of x = x until an operation is known to commute
  (`AcRedundancy.IdentityKept`), and `ac_canonical2` leaves one mark standing (`AcCanonical.MarksCleared`).
* `fpalist_build` can leave as many chunks as places (`FpaList.List.Build`).
* Archiving a clause while keeping it, then appending it again, gives an ID two current positions
  (`ClauseStore.KeptTwice`).
* An accepted code need not be the code of its term: numbers are read with leading zero digits, and
  inputs of version 1 are read (`Compress.CanonicalInput`, `Compress.LooseInputs`).
* Feature vectors filter out subsumers that map two literals to one (`SubsumptionIndex.TwoToOne`).

## Model
| member | source | states |
|---|---|---|
| LatticeFilter.LeqSound | apps.src/latfilter.c:84-117 | Whatever the procedure accepts holds in every lattice, over any carrier type and any assignment. |
| LatticeFilter.LeqTransitive | apps.src/latfilter.c:84-117 | The recursion is transitive although no rule of it says so (cut elimination); with reflexivity this makes it an order in which joins and meets are bounds. |
| LatticeFilter.SymbolsMean | apps.src/latfilter.c:47-64 | Both meet symbols mean the meet and both join symbols the join, and a term built with one of the four is a lattice term if and only if both arguments are. |
| LatticeFilter.WhitmanDecides | apps.src/latfilter.c:84-117 | The procedure accepts s <= t if and only if s <= t in all lattices under all assignments. |
| LatticeFilter.IdentityDecides | apps.src/latfilter.c:125-131 | An equation is accepted if and only if it is an identity of all lattices; an atom that is not an equation is rejected. |
| Diophantine.MinimalBelow | ladr/dioph.c:131-144 | Below every solution lies a minimal one, so keeping only undominated solutions loses none. |
| Diophantine.Gcd | ladr/dioph.c:28-35 | Euclid's loop returns a common divisor that is an integer combination of its inputs, so that every common divisor divides it. |
| Diophantine.Lcm | ladr/dioph.c:44-47 | The least positive common multiple. |
| Diophantine.Block | ladr/dioph.c:158-187 | Huet's counting argument by pigeonhole: a vector with at least a units contains a nonzero part whose weight is k*a with k at most the largest coefficient. |
| Diophantine.LeftBound | ladr/dioph.c:158-170 | No left component of a minimal solution exceeds the largest right coefficient. |
| Diophantine.RightBound | ladr/dioph.c:158-187 | No right component of a minimal solution exceeds the largest left coefficient. |
| Diophantine.SpecialIsMinimal | ladr/dioph.c:339-353 | The solutions on one left and one right component, built from a least common multiple, are minimal. |
| Dioph.VarCheck1 | ladr/dioph.c:79-87 | True exactly when every constrained component is at most 1. |
| Dioph.VarCheck2 | ladr/dioph.c:105-120 | True exactly when the nonzero constrained components carry one and the same symbol. |
| Dioph.LessVec | ladr/dioph.c:57-65 | Componentwise comparison, by a loop. |
| Dioph.AddSolution | ladr/dioph.c:131-144 | A dominated vector is ignored, an undominated one is appended, and failure is exactly an undominated vector with a full basis. |
| Dioph.BuildMaxY | ladr/dioph.c:163-180 | The limits on the right part that follow from the current left part and the special solutions. |
| Dioph.AInBounds | ladr/dioph.c:158-187 | Accepts the left part if and only if it satisfies the bound, the weighted limit and the constraint checks. |
| Dioph.BInBounds | ladr/dioph.c:199-212 | Accepts the right part if and only if weight, component limit and constraint checks allow it. |
| Dioph.XPruning | ladr/dioph.c:158-187 | A left part out of bounds rules out every minimal solution above it, except the special ones, which are added separately. |
| Dioph.YPruning | ladr/dioph.c:199-212 | Every wanted solution above the current vector passes the bounds, so leaving a digit out of bounds skips none. |
| Dioph.NewIsMinimal | ladr/dioph.c:131-144 | An undominated solution met by the search is minimal, because everything below it was visited before. |
| Dioph.StepX | ladr/dioph.c:294-337 | One turn of the outer odometer keeps the invariant of the search and uses up part of what remains; it fails only if there are too many minimal solutions. |
| Dioph.AddSpecial | ladr/dioph.c:339-353 | After the attempt every minimal solution on that pair of components is in the basis. |
| Dioph.Dio | ladr/dioph.c:242-355 | Result 1: the basis holds every minimal nonzero solution within the constraints, each once, and nothing else. Result -1: there are more than MAX_BASIS of them. Result 0, which the documentation mentions, never occurs. |
| Combos.EmptyAdmissible | ladr/dioph.c:391-432 | The empty subset is admissible if and only if there are no columns; next_combo_a never yields it. |
| Combos.TooLarge | ladr/dioph.c:391-432 | A choice that violates the first constraint check rules out every larger choice. |
| Combos.NextComboA | ladr/dioph.c:391-432 | Success: the least admissible nonempty subset after the current one. Failure: there is none. The array `sum` is the sum of the chosen rows throughout. |
| Combos.NextComboB | ladr/dioph.c:451-504 | Success: the greatest admissible subset before the current one. Failure: there is none. |
| Combos.NextComboC | ladr/dioph.c:527-604 | Success: the least admissible subset after the current one. Failure: there is none. |
| Combos.AllCombosA | ladr/dioph.c:391-432 | From a start call to failure: exactly the admissible nonempty subsets, in increasing order and so without repeats. |
| Combos.AllCombosB | ladr/dioph.c:451-504 | Exactly the admissible subsets in decreasing order, for problems with a column. |
| Combos.AllCombosC | ladr/dioph.c:527-604 | Exactly the admissible subsets in increasing order, the empty one included. |
| Terms.MatchComplete | ladr/unify.c:471-476 | Matching finds the least substitution that extends the given one and makes pattern and term equal. |
| DiscrimTree.EnumIsScan | ladr/discrimb.c:304-445 | Walking the tree enumerates the same answers, in the same order, as matching every stored path in turn. |
| DiscrimTree.KeyMatches | ladr/discrimb.c:304-445 | A stored path matches a query exactly when its key does, with the same substitution. |
| DiscrimTree.InsertFormed | ladr/discrimb.c:304-471 | Insertion keeps siblings ordered and every branch spelling whole terms, with objects at leaves only. |
| DiscrimTree.InsertAddsOne | ladr/discrimb.c:304-471 | Insertion adds exactly one entry and moves no other. |
| DiscrimTree.InsertIsLast | ladr/discrimb.c:454-471 | It comes after all entries with the same path. |
| DiscrimTree.EntriesInOrder | ladr/discrimb.c:304-445 | The entries of a tree stand in the order of their paths: variables by number, then symbols by number, at the first difference. |
| DiscrimTree.DeleteRemovesOne | ladr/discrimb.c:488-675 | A successful deletion removes exactly one entry. |
| DiscrimTree.DeleteIsFirst | ladr/discrimb.c:599-675 | It is the first with that path and that object. |
| DiscrimTree.DeleteFormed | ladr/discrimb.c:599-675 | Deletion, which prunes empty nodes upwards, keeps the shape of the tree. |
| DiscrimTree.DeleteSucceeds | ladr/discrimb.c:488-675 | Deletion fails if and only if nothing is stored under that key for that object. |
| FlatRetrieval.FlatIdent | ladr/flatterm.c:130-137 | Comparing two stretches of cells in lock step decides equality of the subterms there. |
| FlatRetrieval.Query.constructor | ladr/flatdemod.c:102-179 | A flatterm with clean cells. |
| FlatRetrieval.Query.Backtrack | ladr/flatdemod.c:124-137 | Goes back to the nearest cell with siblings to try; the leaves still to come stay the same, and at the first cell nothing is bound. |
| FlatRetrieval.Query.TryVariable | ladr/flatdemod.c:139-156 | Binds a free tree variable or compares a bound one; what is found under the node and what is to come together are unchanged. |
| FlatRetrieval.Query.TryRigidKids | ladr/flatdemod.c:157-166 | Only the sibling with the symbol of the cell can match. |
| FlatRetrieval.Query.RetrieveLeaf | ladr/flatdemod.c:102-179 | For any well-formed tree: the next leaf of the enumeration of what the walk gets to, with its substitution; failure means that none is left, and leaves nothing bound but possibly the first cell, to the variable of the first kid of the root. |
| FlatRetrieval.Query.RetrieveFirst | ladr/flatdemod.c:191-209 | The first answer, with all later ones still to come. |
| FlatRetrieval.Query.RetrieveNext | ladr/flatdemod.c:221-242 | The next answer, of this leaf or the next one. |
| FlatRetrieval.Query.Cancel | ladr/flatdemod.c:254-269 | Clears all cells and bindings from wherever the retrieval stopped. |
| FlatRetrieval.Query.RetrieveAll | ladr/flatdemod.c:191-242 | The answers, in order, are those of the enumeration of the siblings that the walk gets to; the query ends clean if and only if the first kid of the root is not a variable. |
| FlatRetrieval.Missed | ladr/flatdemod.c:124-137 | All answers are those found followed by those of the other siblings of a first kid that is a variable; so an answer is missed if and only if the first kid is a variable and its siblings have answers. |
| BindRetrieval.LayOut | ladr/discrimb.c:871-896 | Laying out the arguments of a place holder, with the old cell reused for the last argument, changes neither the terms spelled nor any pointer to a last cell before it. |
| BindRetrieval.BindQuery.Backtrack | ladr/discrimb.c:800-825 | Undoes bindings back to the nearest cell with siblings; the leaves still to come stay the same. |
| BindRetrieval.BindQuery.FollowLast | ladr/discrimb.c:844-850 | Following the pointer to the last cell skips exactly the current term, however much of it has been laid out. |
| BindRetrieval.BindQuery.InsertSkeleton | ladr/discrimb.c:871-896 | After the skeleton is inserted the arguments are pending, and the leaves still to come are as before. |
| BindRetrieval.BindQuery.TryVariables | ladr/discrimb.c:827-843 | Finds the first variable sibling that matches, or shows that only rigid siblings can. |
| BindRetrieval.BindQuery.RetrieveLeaf | ladr/discrimb.c:762-929 | Returns the next leaf of the enumeration with its substitution; failure means that none is left, and leaves nothing bound. |
| BindRetrieval.BindQuery.RetrieveFirst | ladr/discrimb.c:958-976 | The first answer, with all later ones still to come. |
| BindRetrieval.BindQuery.RetrieveNext | ladr/discrimb.c:998-1019 | The next answer, of this leaf or the next one. |
| BindRetrieval.BindQuery.Cancel | ladr/discrimb.c:1035-1055 | Undoes every binding made. |
| BindRetrieval.BindQuery.RetrieveAll | ladr/discrimb.c:958-1019 | The answers, in order, are those of the enumeration. |
| Flatterm.TermToFlatterm | ladr/flatterm.c:172-238 | The cells are the symbols in prefix order, each with the position where its subterm ends. |
| Flatterm.FlattermToTerm | ladr/flatterm.c:250-310 | Gives back the term that the flatterm represents. |
| GeneralizationIndex.FlattermDetermines | ladr/flatterm.c:172-238 | A flatterm represents one term only. |
| GeneralizationIndex.ScanPermutes | ladr/discrimb.c:304-445 | The multiset of answers does not depend on the order of the entries. |
| GeneralizationIndex.Index.Add | ladr/discrimb.c:454-471 | One more stored pair. |
| GeneralizationIndex.Index.Remove | ladr/discrimb.c:599-675 | One stored pair less; failure, without a change, exactly when it is not stored. |
| GeneralizationIndex.Index.AnswersAreMatches | ladr/discrimb.c:304-675 | After any run of insertions and deletions the tree answers a query with exactly the matches of a linear scan, each as often. |
| GeneralizationIndex.AnswersMissed | ladr/flatdemod.c:124-137 | What retrieval with a flatterm finds is part of what a linear scan finds, and an answer is missed if and only if some key is a variable and a key other than the least variable matches. |
| GeneralizationIndex.Index.Generalizations | ladr/flatdemod.c:102-269 | Retrieval with a flatterm, for any keys: the matches of a linear scan of the keys that are seen (all of them if no key is a variable, else those of the least variable); the query ends clean if and only if no key is a variable. |
| GeneralizationIndex.VariableKeyStops | ladr/flatdemod.c:102-242 | A run on an index with the keys x and c: the query c has two matches, retrieval finds the first only, and the query is not clean afterwards. |
| GeneralizationIndex.Index.TermGeneralizations | ladr/discrimb.c:762-1055 | Retrieval with an ordinary term equals the linear scan with matching, for any keys. |
| RewriteSoundness.StepMeans | ladr/demod.c:537-615 | A step at the top turns t into u if and only if t and u are instances of the two sides of its equation under one substitution, from left to right in direction 1. |
| RewriteSoundness.ReplayValue | ladr/flatdemod.c:454-493 | A run of steps on the atoms of a clause changes the value of none in any structure where the equations hold. |
| Replay.RewriteInContext | ladr/demod.c:537-615 | Rewriting a node of one term in a list of terms is rewriting a node of the list, shifted by the nonvariable nodes before it. |
| Replay.ReplayUnder | ladr/demod.c:537-615 | Steps counted from the arguments of a term replay in the whole term. |
| ParticularDemod.PartRecurse | ladr/demod.c:537-615 | The stack loop rewrites the node that brings the running count to the target, and returns the count that a traversal up to there has reached. |
| ParticularDemod.ParticularDemod | ladr/demod.c:632-655 | A step succeeds if and only if it rewrites a proper subterm of an atom, and then gives that rewrite. A rewrite of a whole atom is lost, because the returned term is dropped. |
| ParticularDemod.Expand | ladr/xproofs.c:462-481 | Expands all steps in order, or fails at the first that cannot be redone. |
| ParticularDemod.ExpandReplays | ladr/demod.c:632-655 | Steps whose rules cannot rewrite a whole atom are all replayed. |
| FlatDemod.CandidateMatches | ladr/flatdemod.c:322-334 | Every candidate is a stored side that matches the term, binds all variables of the other side and can be found by its clause. |
| FlatDemod.ContractumFlags | ladr/flatdemod.c:45-73 | What is copied from a substitution into normal forms is rightly marked as reduced. |
| FlatDemod.Demodulation.FindRewrite | ladr/flatdemod.c:320-349 | The first candidate, in the order of retrieval, that is oriented or goes from the term to a smaller one; none only if there is no such candidate. |
| FlatDemod.Demodulation.Fdemod | ladr/flatdemod.c:278-376 | Terminates for any demodulators within the step limit; every recorded step rewrites the first node, arguments before their parent and left to right, that can be rewritten, by its first usable candidate, and is made while the size is within the limit; the steps replay to the result; unless a limit stopped it, no subterm of the result can be rewritten; every mark is on a normal form. |
| FlatDemod.Demodulation.FdemodArgs | ladr/flatdemod.c:299-320 | The same for the arguments from left to right, with counts and limits carried on. |
| FlatDemod.Demodulation.Fdemodulate | ladr/flatdemod.c:393-419 | The same for one atom; the limit is reported as exceeded if and only if there is one and the atom has grown by more, and otherwise carried on unchanged. |
| FlatDemod.Demodulation.FdemodClause | ladr/flatdemod.c:468-495 | The recorded steps, in order, replay from the clause to the result, each at the first node of the clause that can be rewritten, also when a limit cuts the run short; otherwise every atom is in normal form. Without an increase limit none is reported; a limit reported as exceeded was so already, or some atom outgrew it, those before it are in normal form and those after it untouched. |
| FlatDemod.RunsAgree | ladr/flatdemod.c:278-376 | Such steps are determined by the demodulators and the atoms: of two runs one begins with the other, and they are the same if both end in normal form. |
| DemodReplay.StepsExpand | ladr/demod.c:632-655 | Applying particular_demod with each recorded triple is the replay of the steps, provided that no indexed side looks like an atom. |
| DemodReplay.DemodulateAndExpand | ladr/flatdemod.c:468-495 | Demodulating a clause and expanding its justification gives the same clause. |
| DemodReplay.RetrieveCandidates | ladr/flatdemod.c:320-349 | The candidates that rewriting tries are what retrieval over the linked cells finds in the index, in that order. |
| DemodReplay.IndexedExactly | ladr/demod.c:40-104 | The left side is indexed exactly for oriented equations and for usable ones with all variables on the left, the right side exactly for usable ones with all variables on the right that are not their own flip; direction 1 goes from left to right. |
| DemodReplay.SidesAreSafe | ladr/demod.c:40-104 | Every side that is indexed is a nonvariable term with all variables of the other side. |
| Formulas.DualTruth | ladr/formula.c:1172-1198 | The dual is false exactly where the formula is true with every leaf flipped. |
| Simplify.StrikeOut | ladr/cnf.c:418-476 | Striking out an argument that another one subsumes loses nothing. |
| Simplify.RemoveSubsumed | ladr/cnf.c:442-476 | Computes the result of striking out pair by pair; that is equivalent to what was there, no argument left subsumes another, and FALSE is never dropped. |
| Simplify.Survives | ladr/cnf.c:442-476 | An argument that no other argument subsumes is left. |
| Simplify.DisjoinItself | ladr/cnf.c:529-563 | A leaf disjoined with itself is left as a disjunction with one argument. |
| Simplify.DisjoinFlattenSimplify | ladr/cnf.c:529-563 | A disjunction of both without repetitions, or TRUE when complements meet before they are struck out. |
| Simplify.SimplifyAnd | ladr/cnf.c:576-594 | Computes the simplified conjunction: equivalent, and a normal form with no more clauses when the arguments are clauses. |
| Simplify.DistributeTop | ladr/cnf.c:627-669 | Computes the product of the conjuncts: equivalent to the disjunction, with at most the product of the numbers of clauses. |
| Distribute.BbtSums | ladr/cnf.c:485-518 | Balancing keeps the number of clauses to expect. |
| Distribute.BbtBalanced | ladr/cnf.c:485-518 | Balancing gives a tree of at most d levels for up to 2^d arguments. |
| Distribute.DistributedOk | ladr/cnf.c:678-728 | The recursive distribution fails if and only if the tree of disjunctions has one with a single argument, and otherwise gives an equivalent normal form within the product bound. |
| Distribute.DistributedTidy | ladr/cnf.c:678-728 | Distribution leaves no repeated or complementary literals in a clause, no clause that subsumes another and no complementary units. |
| Distribute.Distribute | ladr/cnf.c:678-728 | The stack loop computes that recursion, and so has its properties. |
| Cnf.FlattenTruth | ladr/formula.c:1326-1369 | Flattening keeps the truth value. |
| Cnf.KeptSame | ladr/cnf.c:745-809 | Dropping subsumed arguments of a disjunction, by way of the dual, keeps its truth. |
| Cnf.KeptReduced | ladr/cnf.c:745-809 | No disjunct that is left makes another one superfluous. |
| Cnf.KeptLone | ladr/cnf.c:745-809 | A disjunction with one argument is left over if and only if there was one and TRUE was not among the arguments. |
| Cnf.DistributeOr | ladr/cnf.c:745-809 | Fails exactly when one of the normal forms is a disjunction with one argument. |
| Cnf.NodeStep | ladr/cnf.c:745-809 | From normal forms of the arguments to one of the node; at a disjunction it fails if and only if a disjunction with one argument is among them and TRUE is not. |
| Cnf.FailsIffMisread | ladr/cnf.c:745-809 | The normal form does not exist, because distribute misreads its input, if and only if some disjunction has an argument whose normal form is a disjunction with one argument, and none whose normal form is TRUE. |
| Cnf.MisreadInput | ladr/cnf.c:745-809 | It does not exist for ((a and b) or (a and not b)) and ((a and c) or (a and not c)), as an argument of a disjunction with any w whose normal form is not TRUE. |
| Cnf.CnfTidy | ladr/cnf.c:745-809 | The normal form has no repeated or complementary literals in a clause, no clause that subsumes another and no complementary units. |
| Cnf.Cnf | ladr/cnf.c:745-809 | The stack loop computes the recursive normal form: equivalent to the input, a conjunction of flat disjunctions, with leaves of the input only, at most cnf_max_clauses clauses when every quantified leaf counts for one, and a leaf unchanged; failure exactly on a misread formula, which needs a compound argument of a disjunction that is equivalent to a leaf. |
| Cnf.QuantifierFreeBound | ladr/cnf.c:2057-2129 | Without quantifiers the normal form has at most cnf_max_clauses clauses. |
| Cnf.LeafBound | ladr/cnf.c:2057-2129 | A leaf is its own normal form, and exceeds the bound if and only if its count is 0. |
| Cnf.CnfMaxClauses | ladr/cnf.c:2065-2129 | The stack loop computes the recursive count. |
| CnfCount.MaxClausesExact | ladr/cnf.c:2059-2129 | The count is the number of clauses of the formula multiplied out without any simplification, quantifiers left aside. |
| CnfCount.MultipliedTruth | ladr/cnf.c:2059-2129 | Those clauses together mean the formula, when it has no quantifiers. |
| Cnf.QuantifiedTruthUncounted | ladr/cnf.c:2065-2129 | So the bound is false of cnf on a quantified TRUE, which counts for nothing and whose normal form is one clause. |
| CnfDef.CollectVars | ladr/cnf.c:1245-1307 | The variables below MAX_VARS, each once, in increasing order; exactly those that occur. |
| CnfDef.IntroduceDefinition | ladr/cnf.c:1359-1496 | Names a subformula: one definition clause for each of its clauses, with a fresh predicate over its collected variables. |
| CnfDef.ScanCounts | ladr/cnf.c:1565-1593 | The product is exact up to the threshold; beyond it the argument found is the first of the largest up to where the product exceeds the threshold, and has more than one clause. |
| CnfDef.ScanLargest | ladr/cnf.c:1565-1593 | Where the scan ends, and that it finds the first of the largest arguments up to there. |
| CnfDef.RenameOk | ladr/cnf.c:1555-1593 | Renaming ends, leaves a disjunction that stands for the old one under the definitions and distributes to at most the threshold, and keeps every argument of one clause. |
| CnfDef.RenameLoop | ladr/cnf.c:1555-1593 | The loop computes that renaming. |
| CnfDef.DefNodeOk | ladr/cnf.c:1510-1603 | A node of renamed arguments, renamed and distributed in turn, stands for the node; it fails if and only if a disjunction with one argument is among the arguments of a disjunction and TRUE is not. |
| CnfDef.DefIsCnf | ladr/cnf.c:1510-1603 | Where no disjunction can come to more clauses than the threshold, nothing is named and the result is that of cnf. |
| CnfDef.DefMisreadInput | ladr/cnf.c:1510-1603 | So what cnf misreads is misread here too, with a threshold of 8 or more. |
| CnfDef.DefFailsIffMisread | ladr/cnf.c:1510-1603 | Failure if and only if some disjunction, when its turn comes, has an argument whose normal form is a disjunction with one argument and none whose normal form is TRUE. |
| CnfDef.DefTidy | ladr/cnf.c:1510-1603 | The normal form has no repeated or complementary literals in a clause, no clause that subsumes another and no complementary units. |
| CnfDef.CnfDef | ladr/cnf.c:1510-1603 | The stack loop computes the recursive normal form and its definitions: it stands for the input under the definitions, within the bound that the threshold gives, and fails exactly on a misread formula. Variables need not be below MAX_VARS; if they are, so are those of everything named. |
| Definitions.ModelOfBoth | ladr/cnf.c:1666-1694 | Every model of the output and its definitions is a model of the input. |
| Definitions.DefinitionExists | ladr/cnf.c:1358-1394 | A structure can be extended by a definition, on the new predicate only, if and only if the named subformula has the same value under all values of the variables that were not collected. |
| Definitions.DeterminedExtends | ladr/cnf.c:1666-1694 | Where each definition in turn can be added, the structure extends, on the fresh predicates only, to one where all definitions hold and the output says what the input says. |
| Definitions.ModelExtends | ladr/cnf.c:1666-1694 | So every structure does when all variables are below MAX_VARS. |
| Definitions.UncollectedVariable | ladr/cnf.c:1245-1307 | A run of cnf_def on (P and Q) or R over a variable numbered MAX_VARS: the name it introduces for P and Q has no arguments, and in a structure where the input holds for all values the output fails for some value, whatever the name stands for. |
| Substitution.SubstHolds | ladr/formula.c:1898-1926 | Substituting a term for a free name is assigning it the value of the term, when nothing is captured. |
| Skolem.SkolemLoop | ladr/cnf.c:839-988 | The explicit stack with one list of universal variables computes the recursive Skolemization, in which a universal variable bound again is renamed; the result has no existential quantifier when the formula is in negation normal form, and the counter grows by the number of existentials. |
| Skolem.SkolemRemoves | ladr/cnf.c:839-988 | That recursion keeps the shape of the formula without its existential quantifiers, gives one new symbol to each, and leaves none in a formula in negation normal form. |
| Skolem.PrefixSkolem | ladr/cnf.c:839-988 | Under a prefix of universal quantifiers an existential variable becomes the new symbol applied to the variables of the prefix in order. |
| Skolem.SkolemSound | ladr/cnf.c:839-988 | Every model of the Skolemized formula is a model of the formula, when Skolem terms are not captured and the names given occur nowhere in their scopes. |
| Skolem.SkolemComplete | ladr/cnf.c:839-988 | Every model becomes a model of the Skolemized formula by reinterpreting the Skolem symbols, once for all values of the universal variables. |
| Skolem.UniqueIsClean | ladr/cnf.c:839-988 | With unique names no Skolem term is captured. |
| Skolem.RebindingIsClean | ladr/cnf.c:872-881 | Nor is one when universal variables are bound again, as they are renamed, unless that happens inside an existential scope; generated names must not occur. |
| Skolem.CleanTheorem | ladr/cnf.c:839-988 | Whenever none is captured: the reinterpretation changes the fresh symbols only and carries models forward, and every structure that agrees on the old symbols carries models back. |
| Skolem.SkolemTheorem | ladr/cnf.c:839-988 | So it is for sentences with unique names, and for those where no existential scope binds a universal variable around it and no generated name occurs; the result has no existential quantifier. |
| UniqueVars.UniquifyUnique | ladr/cnf.c:1038-1076 | After renaming, all bound names are different from each other and from the names in use. |
| UniqueVars.UsedExactly | ladr/cnf.c:1038-1076 | The list of names in use grows by exactly the bound names of the result. |
| UniqueVars.UniquifyKeeps | ladr/cnf.c:1038-1076 | A formula whose bound names are different from each other and from those in use stays as it is. |
| UniqueVars.UniquifyHolds | ladr/cnf.c:1038-1076 | Renaming preserves truth if no name that it chooses occurs in the scope where it is put. |
| UniqueVars.KnownSpared | ladr/cnf.c:1038-1076 | So it is if every name that can be generated and occurs in the formula is in the list of names in use. |
| UniqueVars.GeneratedNameCaptured | ladr/symbols.c:2834-2854 | Without that proviso it does not: a constant that looks like a generated name is captured. |
| UniqueVars.RebindingUnsound | ladr/cnf.c:872-881 | Where an existential scope does bind a universal variable around it, the Skolem term is captured: all x some y all x (x = y) becomes all x all n (n = sk(n)), which has a model where the input has none. |
| Miniscope.DualHolds | ladr/cnf.c:1807-1862 | The dual holds exactly where the formula fails with every atom negated; this is what the treatment of existentials rests on. |
| Miniscope.SplitUniversal | ladr/cnf.c:1713-1761 | A universal quantifier need only cover the disjuncts that mention its variable. |
| Miniscope.NarrowScoped | ladr/cnf.c:1713-1761 | After that the variable occurs in every disjunct of the scope. |
| Miniscope.MsFreeVars | ladr/cnf.c:1713-1761 | The loop splits the disjuncts in order and rebuilds the formula from both parts. |
| Miniscope.AndNode | ladr/cnf.c:1876-1879 | Equivalent to the conjunction of its arguments, with scopes as narrow. |
| Miniscope.OrNode | ladr/cnf.c:1880-1887 | Equivalent to the disjunction of its arguments, with scopes as narrow; here, after flattening, distribute never misreads its input. |
| Miniscope.AllNode | ladr/cnf.c:1888-1905 | A quantifier over a conjunction goes to each conjunct. |
| Miniscope.LeftOver | ladr/cnf.c:1880-1905 | What miniscoping leaves undone: a quantifier over FALSE, and one over half of a conjunction that a collapsed disjunction left balanced instead of flat. |
| Miniscope.MiniscopeSame | ladr/cnf.c:1773-1914 | The result is true in the same structures as the formula, over every nonempty domain. |
| Miniscope.Miniscope | ladr/cnf.c:1773-1914 | The stack loop computes that result; every quantified variable of it occurs in its scope and in every disjunct (conjunct, for an existential) of it, with the exceptions just named. |
| MiniscopeNormal.UniversalNormal | ladr/cnf.c:1880-1905 | Without existential quantifiers the result is a conjunction of clauses of atoms and quantified formulas, unless some disjunction collapses to a single conjunction. |
| MiniscopeNormal.ExistentialNormal | ladr/cnf.c:1807-1862 | Under an existential quantifier it is the dual of one. |
| AcTheory.CanonicalExact | ladr/ac_redun.c:293-364 | The normal forms are exactly the terms in which under every AC symbol the arguments hang to the right and ascend, and the arguments of every other commutative symbol are in order. |
| AcTheory.NormSound | ladr/accanon.c:115-156 | Terms with the same normal form are equal in every structure that satisfies the C and AC laws. |
| AcTheory.NormComplete | ladr/accanon.c:115-156 | Terms that are equal in all structures over terms that satisfy the laws have the same normal form. |
| AcTheory.NormDecides | ladr/ac_redun.c:293-364 | The normal form decides equality modulo the laws. |
| AcCanon.Canon | ladr/ac_redun.c:293-364 | Terminates in spite of the restarts, for any total order on terms in which variables come first, and gives the normal form, marked as done; marks found on the way are trusted only where they are right. |
| AcCanon.Mark | ladr/ac_redun.c:348-361 | At a node without an AC symbol: exchange if commutative and out of order, and mark; the work left goes down. |
| AcCanon.Rearrange | ladr/ac_redun.c:325-347 | At an AC node: rotate, exchange or mark; the canonical form stays the same and the work left goes down. |
| AcRedundancy.CommutativityExact | ladr/ac_redun.c:59-76 | Recognized exactly: f(x,y) = f(y,x) with two different variables. |
| AcRedundancy.CommutativityMeans | ladr/ac_redun.c:59-76 | The recognized equation holds if and only if the operation commutes. |
| AcRedundancy.AssociativityExact | ladr/ac_redun.c:91-117 | Recognized exactly: f(f(x,y),z) = f(x,f(y,z)), with three different variables. |
| AcRedundancy.AssociativityMeans | ladr/ac_redun.c:91-117 | The recognized equation holds if and only if the operation is associative. |
| AcRedundancy.CAssociativityExact | ladr/ac_redun.c:132-158 | Recognized exactly: f(x,f(y,z)) = f(y,f(x,z)) with three different variables. |
| AcRedundancy.CAssociativityMeans | ladr/ac_redun.c:132-158 | The recognized equation holds if and only if x(yz) = y(xz) for the operation. |
| AcRedundancy.CacRedundantAtom | ladr/ac_redun.c:373-406 | True exactly for an equation, not one of the laws, whose sides have the same normal form. |
| AcRedundancy.RedundantExact | ladr/ac_redun.c:373-406 | The three laws are never redundant; any other equation is if and only if both sides are complex and have the same normal form. |
| AcRedundancy.NewsMeans | ladr/ac_redun.c:456-500 | An equation is news if and only if it is one of the three laws for an operation not known to have it. |
| AcRedundancy.TheoryMeans | ladr/ac_redun.c:456-500 | An operation is treated as commutative if and only if that law was met, and as AC if and only if all three were. |
| AcRedundancy.CacState.ListsSay | ladr/ac_redun.c:456-500 | The four lists contain exactly the operations whose laws were met. |
| AcRedundancy.CacState.CacRedundancy | ladr/ac_redun.c:456-515 | The lists record the laws seen; a clause is replaced only if it brings no law and has an atom that the laws make true. |
| AcRedundancy.CacState.Detect | ladr/ac_redun.c:456-500 | The lists grow exactly by the symbols whose laws are complete with the new equation. |
| AcRedundancy.CacState.SeedCacProperties | ladr/ac_redun.c:532-569 | Records a law and reports whether anything changed. |
| AcRedundancy.LawsModel | ladr/ac_redun.c:456-515 | A structure where the recorded laws hold is a model of the theory in use. |
| AcRedundancy.ReplacedFollows | ladr/ac_redun.c:456-515 | A replaced clause follows from the laws: one of its positive equations holds wherever they hold. |
| AcRedundancy.IdentityKept | ladr/ac_redun.c:418-428 | An instance of x = x is kept while no operation is known to commute, although the documentation promises its removal. |
| AcCanonical.Flatten | ladr/accanon.c:36-55 | Appends the arguments at the top in order. |
| AcCanonical.RightAssociate | ladr/accanon.c:69-109 | Gives a right-associated spine with the same arguments in the same order. |
| AcCanonical.NormByFlat | ladr/accanon.c:115-156 | Flattening, canonicalizing the arguments and sorting gives the normal form. |
| AcCanonical.AcCanonical2 | ladr/accanon.c:121-156 | Gives the normal form; subterms marked as reduced are rightly skipped. |
| AcCanonical.MarksCleared | ladr/accanon.c:121-156 | All nodes of the spine that get new arguments lose their mark except the last, which keeps it. |
| OrthoFilter.NnfValue | apps.src/olfilter.c:98-143 | Negation normal form keeps the value in every ortholattice. |
| OrthoFilter.SimplifyValue | apps.src/olfilter.c:154-207 | Removing 0 and 1 keeps the value. |
| OrthoFilter.LeqSound | apps.src/olfilter.c:229-284 | Whatever the comparison accepts holds in every ortholattice. |
| OrthoFilter.ReducedTests | apps.src/olfilter.c:292-312 | The tests for reduced terms compare with the complement of an argument. |
| OrthoFilter.BelowComplement | apps.src/olfilter.c:322-351 | No reduced term but 0 lies below its own complement. |
| OrthoTheorem.BetaReduced | apps.src/olfilter.c:361-395 | The invariant of the recursion: the simplified result of `beta` is reduced. |
| OrthoTheorem.UnreducedJoin | apps.src/olfilter.c:361-395 | A join that is not reduced has the value 1, so `beta` may collapse it. |
| OrthoTheorem.IdentitySound | apps.src/olfilter.c:405-426 | An accepted equation holds in every ortholattice, defined operations included. |
| OrthoTheorem.IdealsOrtholattice | apps.src/olfilter.c:229-284 | The principal ideals of reduced terms form an ortholattice, the one that refutes what the procedure rejects. |
| OrthoTheorem.BrunsDecides | apps.src/olfilter.c:405-455 | An equation is accepted if and only if it is an identity of ortholattices, which settles the author's doubt (line 44). |
| Subsume.SubMeans | ladr/di_tree.c:426-482 | The search succeeds if and only if some instance of the clause has all its literals in the other clause. |
| Subsume.SubsumeDiLiterals | ladr/di_tree.c:426-482 | The loop with saved states and undone bindings computes the search. |
| Features.FeaturesGrow | ladr/features.c:91-167 | A clause whose instantiated literals map injectively into d has features at most those of d. |
| Features.VectorPlaces | ladr/features.c:139-167 | First the numbers of positive and negative literals; then for each listed symbol its occurrences in positive and in negative literals, and for a function symbol its greatest depths there. |
| Features.FillInArrays | ladr/features.c:91-114 | Adds the occurrences of every symbol and raises its greatest depth. |
| Features.Work.Compute | ladr/features.c:139-167 | The feature vector of the clause, with the work arrays zero again. |
| DiTree.InsertAdds | ladr/di_tree.c:175-205 | Insertion stores the clause once more and keeps the siblings in order. |
| DiTree.DeleteRemoves | ladr/di_tree.c:217-269 | Deletion stores the clause once less, prunes empty branches, and fails exactly when it is not there. |
| DiTree.DiTreeForward | ladr/di_tree.c:507-567 | The first hit of filtering all stored clauses by features and subsumption. |
| DiTree.DiTreeBack | ladr/di_tree.c:596-656 | All hits of filtering all stored clauses, in order. |
| SubsumptionIndex.Index.Insert | ladr/di_tree.c:175-205 | The set of indexed clauses grows by the clause. |
| SubsumptionIndex.Index.Delete | ladr/di_tree.c:217-269 | It loses the clause, or nothing and failure if it is not there. |
| SubsumptionIndex.Index.ForwardFeatureSubsume | ladr/di_tree.c:579-587 | A stored subsumer; none only if no stored clause subsumes within the features, and so none injectively. |
| SubsumptionIndex.Index.BackFeatureSubsume | ladr/di_tree.c:668-677 | Exactly the other stored clauses that are subsumed within the features, as often as stored; none that is subsumed injectively is missed. |
| SubsumptionIndex.TwoToOne | ladr/di_tree.c:507-567 | A subsumer that maps two literals to one is filtered out by its features. |
| FpaList.List.Insert | ladr/fpalist.c:346-367 | The set of IDs grows by the ID, failure exactly for a duplicate; the chain stays decreasing, right-justified and uniform, and doubling meets an even number of chunks. |
| FpaList.List.FlistInsert | ladr/fpalist.c:237-334 | Insertion with at most one split, and at most one chunk more. |
| FpaList.List.DoubleChunksize | ladr/fpalist.c:199-225 | Pairs of chunks become chunks of twice the size with the same IDs in the same order. |
| FpaList.List.Consolidate | ladr/fpalist.c:376-390 | Joins two chunks only if the items fit, keeping the order. |
| FpaList.List.FlistDelete | ladr/fpalist.c:399-440 | The set of IDs loses the ID, failure exactly when it is not there. |
| FpaList.List.Delete | ladr/fpalist.c:452-460 | The same for the list with its counters. |
| FpaList.List.Traverse | ladr/fpalist.c:472-501 | Visits every ID once, in decreasing order. |
| FpaList.List.Build | ladr/fpalist.c:590-640 | A list of the given IDs; it keeps fewer chunks than places, as insertion does, if and only if there are few enough items. Otherwise, as with 16 items, doubling no longer comes when it should. |
| PageTable.NullExists | ladr/clauseid.c:92-108 | A table that is not full has an empty slot, so every probe ends. |
| PageTable.PageSlot | ladr/clauseid.c:92-108 | The slot of the page; or the empty slot that ends the probe, or for insertion the first tombstone met. |
| PageTable.ResizePageTable | ladr/clauseid.c:111-126 | A table with the same pages and no tombstones. |
| ClauseIds.IdTable.GetIdPage | ladr/clauseid.c:139-167 | The page is there afterwards, the load stays below three quarters, and no entry changes. |
| ClauseIds.IdTable.Register | ladr/clauseid.c:170-192 | The table refines a map from IDs: exactly this entry changes. |
| ClauseIds.IdTable.Clear | ladr/clauseid.c:260-293 | Clears the entry if it is the expected one; an empty page becomes a tombstone and no other entry changes. |
| ClauseIds.ClauseTable.RegisterId | ladr/clauseid.c:170-192 | Succeeds exactly for a clause with an ID that is free or its own. |
| ClauseIds.ClauseTable.AssignClauseId | ladr/clauseid.c:237-245 | A new, larger ID. |
| ClauseIds.ClauseTable.UnassignClauseId | ladr/clauseid.c:260-293 | A registered clause leaves the table with its ID; any other call changes nothing. |
| ClauseIds.ClauseTable.DetachClauseId | ladr/clauseid.c:296-330 | A registered clause leaves the table and keeps its ID. |
| ClauseIds.ClauseTable.FindClauseById | ladr/clauseid.c:346-350 | The resident clause of an ID, if any. |
| ClauseIds.ClauseTable.ArchiveClauseId | ladr/clauseid.c:353-366 | The ID of a registered clause now stands for a record. |
| ClauseIds.ClauseTable.ActivateArchivedClauseId | ladr/clauseid.c:369-384 | The ID of the expected record stands for the clause again. |
| ClauseIds.ClauseTable.UnassignArchivedClauseId | ladr/clauseid.c:405-438 | The ID of the expected record is free again. |
| ClauseStore.Store.Append | ladr/clause_store.c:505-522 | Appends once. The store stays settled if and only if the clause is the one its ID stands for. Afterwards each ID has at most one current position if and only if that was so before and no current position has the ID of the clause; from a settled store, if and only if the clause is the one its ID stands for or no current position has that ID. |
| ClauseStore.Store.SettledIsOnePerId | ladr/clause_store.c:622-636 | In a settled store each ID has at most one current position. |
| ClauseStore.Store.ArchiveClause | ladr/clause_store.c:525-543 | The position becomes a record at the end of the backing; success is exactly a resident, registered clause and a written record. Settled stores stay settled, and at most one current position for each ID stays so. |
| ClauseStore.Store.ArchiveClausePreserve | ladr/clause_store.c:546-587 | The same, with the clause kept for the indexes. |
| ClauseStore.Store.Activate | ladr/clause_store.c:820-839 | A current record comes back as a new clause and stops being current; at most one current position for each ID stays so. |
| ClauseStore.Store.PositionIsCurrent | ladr/clause_store.c:622-636 | Decides whether a position is the one its ID stands for. |
| ClauseStore.Store.OneCurrent | ladr/clause_store.c:622-636 | When each ID has at most one current position, two current positions with the same ID are the same. |
| ClauseStore.KeptTwice | ladr/clause_store.c:546-587 | A run that leaves two current positions for one ID: a kept clause is appended again without being registered. |
| Compress.AppendUvarint | ladr/compress.c:94-103 | Appends the code of the number, low digits first. |
| Compress.ReadUvarint | ladr/compress.c:106-126 | Reads a number of at most 32 bits, or fails on a short or overlong input. |
| Compress.ReadExact | ladr/compress.c:106-126 | Exactly what is read: at most five digits, all but the last with the high bit, low digits first, below 2^32. |
| Compress.ReadUvarintBack | ladr/compress.c:94-126 | Reading gives back the number that was written, whatever follows. |
| Compress.AppendVarintTerm | ladr/compress.c:129-158 | Writes the term in prefix order from an explicit stack. |
| Compress.EncodeTermVersioned | ladr/compress.c:266-282 | The code of the term behind its two header bytes. |
| Compress.DecodeVarintTerm | ladr/compress.c:161-263 | The frame stack computes the recursive parse. |
| Compress.DecodeExact | ladr/compress.c:161-290 | A term is decoded from an input if and only if the term is well formed and the input is laid out as its two header bytes and its symbols in prefix order, each with its flags in version 2 and with none, which means flags 0, in version 1. |
| Compress.RoundTrip | ladr/compress.c:129-290 | Decoding inverts encoding on every well-formed term, private flags included. |
| Compress.OldRoundTrip | ladr/compress.c:161-263 | Decoding inverts the version 1 code on every well-formed term without flags. |
| Compress.OldNoFlags | ladr/compress.c:161-263 | A term decoded from version 1 has no flags anywhere. |
| Compress.PrefixRejected | ladr/compress.c:161-263 | No proper prefix of an accepted input is accepted. |
| Compress.ExtensionRejected | ladr/compress.c:161-263 | No proper extension of an accepted input is accepted. |
| Compress.DecodeWellFormed | ladr/compress.c:161-263 | Whatever the bytes, an accepted input gives a well-formed term. |
| Compress.CanonicalInput | ladr/compress.c:106-290 | An accepted input is the encoding of its term if and only if it has the current version and no number of more than one byte in it ends in a zero digit. |
| Compress.LooseInputs | ladr/compress.c:106-290 | One input of each of the two other kinds: a number with a leading zero digit, and an input of version 1. |

## Left out
- Cnf.Cnf: the bound on the number of clauses has an exact condition for a leaf only (Cnf.LeafBound); for compound formulas the proviso, that every quantified leaf counts for at least one, is sufficient.
- Definitions.DefinitionExists: exact for one definition at a time; for a whole run, Definitions.DeterminedExtends, the proviso that each can be added in turn is sufficient.
- Skolem.SkolemTheorem: the proviso that no generated name occurs in a formula that binds a variable again is sufficient.
- UniqueVars.UniquifyHolds: the proviso is on the names chosen for the formula, but sufficient; a name that occurs in the scope need not do harm.
- Combos.AllCombosB: needs at least one column, because from the empty subset, its last answer without columns, no further call is possible.
- Combos.AllCombosC: needs a row or a column, because the search looks at a row of the basis in any case.
- FlatDemod.Demodulation.Fdemod: works on terms with marks, not on the linked cells; that retrieval over the cells gives the same candidates is DemodReplay.RetrieveCandidates.
- Compress.RoundTrip: numbers are unbounded when written and limited to 32 bits when read, as terms with such symbol numbers are not well formed.
- Term-level `demod` and `demod1` (ladr/demod.c): without a step limit they need not end; what they rewrite is what `fdemod` rewrites.
- Retrieval modulo commutativity, and the backtracking indexes for unification.
- `copy_flatterm` and the counting loops on flatterms: copying and counting loops over the cells.
- Linked nodes and relinking in discrimination trees, subsumption trees and AC terms: modelled on values, so aliasing and the reuse of nodes are not captured; the mark bits are.
- Sharing of subformulas (`share_formula`, `consolidate_formula`) and memory management: equality of values takes their place.
- `nnf`, `formula_canon_eq` and `remove_universal_quantifiers`: the formulas here are in negation normal form already.
- The flat stack of `unique_qvars`, modelled as recursion in the same order.
- Time limits, clause limits and jumps out of clausification: they only abort.
- Fixed stack and array sizes other than MAX_BASIS, MAX_VARS and the chunk sizes: unbounded here.
- Overflow of machine integers in `lcm`, offsets, IDs and hash values; the hash function of pages is any function.
- Record contents, checksums and file backing of the clause store, and its statistics, sorting and deletion of all clauses.
- Resetting the ID table and setting its counter from outside.
- The undo trail in subsumption, modelled by the saved substitutions it restores.
- Symbols other than the lattice operations in the two filters: the programs stop with an error.
- Reading, printing, option handling and the main programs.
