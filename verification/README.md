# CaDiCaL in Dafny

A model of the parts of the SAT solver CaDiCaL (`src/cadical`) that have to be right for its answers
to be right: removing clauses during inprocessing and repairing models afterwards, the online
checker of derivations, the search for equivalent literals, and the core of the search: trail,
conflict analysis, decisions and failed assumptions.

The model keeps the shape of the program.  Objects that the program updates in place are classes
(`External`, `Internal`, `Checker`, `Decomposer`, `Round`, `Coveror`, `Queue`, `Searcher`, `Analyzer`, `Assumer`); loops are
loops, with their worklists, marks, rotations and early exits.  What a step keeps is stated by
predicates on values, and lemmas about these values carry the proofs.

| file | what it models |
|---|---|
| `Cnf.dfy`, `Lists.dfy` | literals, clauses, assignments, implication |
| `Extension.dfy` | the extension stack and its traversals |
| `Reconstruction.dfy` | why each technique may remove clauses, over any run |
| `Internal.dfy` | the clause table shared by the techniques |
| `Blocking.dfy` | blocked clauses and pure literals |
| `ElimTables.dfy`, `Elimination.dfy`, `VariableElimination.dfy` | bounded variable elimination |
| `Components.dfy`, `DepthFirst.dfy`, `Decompose.dfy`, `Substitution.dfy` | equivalent literals |
| `Conditioning.dfy`, `ConditionRound.dfy` | globally blocked clauses |
| `CoverSteps.dfy`, `Covering.dfy`, `CoverSettled.dfy`, `CoverClause.dfy` | covered clauses |
| `Propagation.dfy`, `HashTable.dfy`, `CheckerClauses.dfy`, `CheckerState.dfy`, `CheckerBlocked.dfy`, `Checker.dfy` | the online checker |
| `DecisionQueue.dfy` | the queue of decision variables |
| `Trail.dfy`, `Search.dfy` | the trail with literals kept out of order, assigning and backtracking |
| `ConflictSteps.dfy`, `ImplicationGraph.dfy`, `BackjumpSteps.dfy`, `Analyze.dfy` | conflict analysis, learning and backjumping |
| `Assumptions.dfy` | decisions under assumptions and a constraint, failed assumptions |

Conventions.  A literal is a non-zero integer, an assignment the set of its true variables.  A clause
pointer is a position in the clause table (or a key of the checker's memory), the null pointer is
-1.  Marks, seen bits and value arrays are sets of literals or maps.  `State.formula` is what is left of the
formula, units included; `Sound` says that it follows from the given formula and that replaying the
extension stack turns each of its models into a model of the given formula.

Some properties one would expect are false of the code; each is proved with its exact condition.

* Identifiers on the extension stack are split into two words, but the shift that should give the
  high word is narrowed to 32 bits.  The traversals recover a positive identifier if and only if it is
  below 2^31 (`Extension.IdRoundTrip`).  Reconstruction itself does not read identifiers.
* The checker's test for blocked clauses scans stored clauses only, but units live on the
  trail.  A clause whose surviving literal is falsified at the root is accepted although it is not
  blocked: the run that adds the clause -1 and derives the clause 1 (`DrupChecker.FalsifiedSurvivorRun`).  A
  surviving literal blocks the clause if and only if the root trail does not falsify it
  (`CheckerBlocked.BlockedIffUnassigned`), and then satisfiability is kept
  (`CheckerBlocked.AcceptedKeepsSatisfiable`).
* The same test skips deleted clauses, but a deleted binary clause is propagated until its memory is
  freed.  With the deleted clauses 1 2 and 1 -2 in memory -1 is accepted although both clauses
  still propagate (`CheckerBlocked.DeletedBinariesAreIgnored`).  A surviving literal blocks the clause in
  everything that is propagated if and only if it is not falsified and clashes with these clauses as
  well (`CheckerBlocked.BlockedIffTrusted`); over runs with such survivors inconsistency still
  refutes the given clauses (`DrupChecker.TrustedIsUnsatisfiable`).

## Model

| member | source | states |
|---|---|---|
| Extension.External.PushClause | src/cadical/extend.cpp:55-63 | pushing a clause appends exactly one well-formed entry (witness, identifier, clause) to the stack, in the flat zero-separated layout |
| Extension.External.PushClauseWithPivot | src/cadical/extend.cpp:65-69 | the entry has the pivot as its only witness literal |
| Extension.External.PushBinaryClause | src/cadical/extend.cpp:71-84 | the entry has the pivot as witness and the two literals as clause |
| Extension.External.Extend | src/cadical/extend.cpp:121-204 | a variable with an internal literal takes the sign of its value there and every other one keeps its old value; from that assignment the backward pass computes what undoing the entries from the last pushed to the first pushed gives, so variables in no witness keep what was imported |
| Extension.External.TraverseWitnessesBackward | src/cadical/extend.cpp:208-237 | every entry is reported with its witness and clause, last pushed first, and with its identifier unless that was too large, until one is not accepted; the result says whether all were |
| Extension.External.TraverseWitnessesForward | src/cadical/extend.cpp:239-269 | the same in the order of pushing |
| Extension.IdRoundTrip | src/cadical/extend.cpp:10-16 | a positive 64-bit identifier is recovered from its two stored words if and only if it is below 2^31, because the high word is narrowed to zero |
| InternalSolver.Internal.ExtendModel | src/cadical/extend.cpp:121-204 | if the solver state is sound and every clause that is left has a literal that is true by the internal value of its variable (or by the old external value of a variable without one), then the extended values satisfy every given clause |
| Reconstruction.EliminationRestores | src/cadical/elim.cpp:611-671 | if every resolvent on the pivot holds, undoing the entries of all pivot clauses (positive ones pushed first) turns every model of the rest into a model of all pivot clauses |
| Reconstruction.GateEliminationRestores | src/cadical/elim.cpp:611-671 | the same when only gate clauses are pushed and only resolvents across the split and among gate clauses hold, provided the gate clauses define the pivot |
| Reconstruction.SubstitutionRestores | src/cadical/decompose.cpp:426-484 | undoing the two binary entries of every substituted variable makes every clause true whose image under the representatives is true |
| Reconstruction.GlobalBlockingRestores | src/cadical/condition.cpp:772-795 | flipping the autarky part repairs every model that falsifies the removed clause and keeps all other clauses true |
| Reconstruction.CoverRestores | src/cadical/cover.cpp:376-430 | undoing the private entries backward turns every model of the formula without the covered clause into one with it |
| Reconstruction.TechniqueRestores | src/cadical/extend.cpp:121-204 | each of the six techniques leaves only consequences of the given formula, and its entries restore what it removed |
| Reconstruction.RunReconstructs | src/cadical/extend.cpp:121-204 | over every sequence of techniques: what is left is satisfiable if and only if the given formula is, and replaying the whole stack turns any of its models into a model of the given formula |
| Blocking.IsBlockedClause | src/cadical/block.cpp:43-145 | true if and only if every listed clause with the negated literal clashes on a second literal; clauses and the list are only reordered |
| Blocking.BlockPureLiteral | src/cadical/block.cpp:249-290 | exactly the live clauses with the pure literal are pushed and removed, and the state stays sound |
| Blocking.BlockCandidates | src/cadical/block.cpp:435-496 | the candidates are exactly the clauses of admissible size that contain a literal whose negation occurs beside the negated pivot |
| Blocking.BlockImpossible | src/cadical/block.cpp:500-541 | the clause returned clashes with no candidate, so that no candidate can be blocked; none is returned only if there is no such clause |
| Blocking.BlockLiteralWithOneNegativeOcc | src/cadical/block.cpp:298-428 | exactly the blocked clauses of admissible size are removed, unless the only negative clause is too large |
| Blocking.BlockLiteralWithAtLeastTwoNegativeOccs | src/cadical/block.cpp:545-641 | exactly the blocked clauses of admissible size are removed, although tests run one after the other and reorder what they scan |
| Blocking.BlockLiteral | src/cadical/block.cpp:690-735 | the three cases together: nothing for frozen or too frequent literals, all clauses of a pure literal, otherwise exactly the removable ones; the occurrence lists of the literal and its negation stay complete |
| Blocking.UntouchedIsNotBlocked | src/cadical/block.cpp:435-496 | leaving out clauses that are not candidates loses no blocked clause |
| Blocking.BlockKeeps | src/cadical/block.cpp:43-145 | removing a clause that passed the test keeps the reconstruction invariant |
| Elimination.ElimPropagate | src/cadical/elim.cpp:142-201 | units found on the way and the clauses they satisfy change neither the meaning of the formula nor that of its part without the pivot, and propagation is complete: listed clauses with a new unit are garbage, and a clause in the lists of all its literals in which a new unit falsified one is satisfied or has two literals that are not false |
| Elimination.SelfSubsume | src/cadical/elim.cpp:209-244 | the strengthened clause has exactly the remaining literals and replaces the antecedent |
| Elimination.ResolveClauses | src/cadical/elim.cpp:264-451 | a resolvent is returned if and only if the pair is open, its resolvent has at least two literals and subsumes neither clause, and then it has exactly the literals that are not false; otherwise the pair is settled: its resolvent holds in every model of the part without the pivot, or the formula is unsatisfiable, and it will never be open again |
| VariableElimination.CountWith | src/cadical/elim.cpp:462-533 | every pair with the clause that is still open afterwards was counted with a resolvent within the size limit, and every counted pair had a resolvent to be added when it was visited; giving up means unsatisfiability, an assigned pivot, too many counted pairs, or a counted one whose resolvent is too large |
| VariableElimination.ElimResolventsAreBounded | src/cadical/elim.cpp:462-533 | success means: at most as many pairs as there were pivot clauses plus the bound were counted, and no other one is still open; failure means that the formula is unsatisfiable, the pivot has a value, an empty list meets a negative bound, more pairs than that had a resolvent to be added when they were visited, or a counted pair has a resolvent beyond the size limit |
| VariableElimination.ElimAddResolvents | src/cadical/elim.cpp:537-603 | all wanted pairs are settled afterwards, and at most one clause of limited size was appended for each counted pair |
| VariableElimination.MarkEliminatedClausesAsGarbage | src/cadical/elim.cpp:611-671 | no pivot clause is left, the lists of the pivot are empty, and the state is sound with the entries of both sides pushed |
| VariableElimination.EliminationApplies | src/cadical/elim.cpp:537-671 | settled pairs and, if gates were used, a pivot defined by them are all that elimination needs to restore the removed clauses |
| VariableElimination.EliminationKeeps | src/cadical/elim.cpp:537-671 | elimination keeps the reconstruction invariant for every table, with and without gates |
| ElimTables.GatesStay | src/cadical/elim.cpp:264-451 | gate clauses that became garbage on the way still define the pivot in models of what is left |
| VariableElimination.TryToEliminate | src/cadical/elim.cpp:715-727 | counting, adding and removing together: sound in every case; the pivot is gone on success; counting only adds clauses that are proper subsets of clauses that are garbage by then, and the clauses added afterwards respect both limits; failure leaves an equivalent formula, pushes nothing, and has one of the reasons for which counting gives up |
| VariableElimination.TryToEliminateVariable | src/cadical/elim.cpp:676-731 | garbage is flushed, the literal with fewer occurrences becomes the pivot, nothing happens if the other one has too many, and all that holds for eliminating the pivot holds; so a variable without value stays only for too many occurrences or for one of the reasons of counting |
| Decompose.Decomposer.PreFix | src/cadical/decompose.cpp:376-399 | the first visit of a literal keeps the search invariant and pushes exactly its unvisited successors |
| Decompose.Decomposer.PostFix | src/cadical/decompose.cpp:210-374 | a literal seen again lowers its minimum or completes a component, whatever duplicates the work stack holds |
| Decompose.Decomposer.Search | src/cadical/decompose.cpp:186-401 | the search terminates with every literal reached from the root in a completed component, or with a conflicting component |
| Decompose.Decomposer.FindComponents | src/cadical/decompose.cpp:173-403 | every active literal gets the smallest literal of its component, or itself if frozen; a reported conflict is real, and without a report no component contains a literal and its negation |
| DepthFirst.ComponentIs | src/cadical/decompose.cpp:217-360 | when the minimum of a literal equals its index, what lies above it on the stack is exactly its strongly connected component |
| Decompose.SameRepresentative | src/cadical/decompose.cpp:173-403 | two literals that are not frozen have the same representative if and only if they reach each other over binary clauses |
| Decompose.RepresentativeLaws | src/cadical/decompose.cpp:293-360 | representatives commute with negation, represent themselves, are equivalent to the literal and have the smallest variable of the component |
| Decompose.ConflictIsUnsatisfiable | src/cadical/decompose.cpp:293-331 | a component with a literal and its negation refutes the formula whose binary clauses are the edges |
| Components.ConflictEverywhere | src/cadical/decompose.cpp:293-331 | if any literal of a component conflicts then so does each one, so that testing only the entry finds every conflict |
| Substitution.PushEquivalences | src/cadical/decompose.cpp:426-484 | exactly the variables with another representative get their two binary entries, in increasing order |
| Substitution.CopySubstituted | src/cadical/decompose.cpp:519-578 | the new clause consists of unassigned representatives without duplicates, lacks only false literals, and a clause reported as satisfied is true whatever the model |
| Substitution.ReplaceClause | src/cadical/decompose.cpp:497-653 | each of the five outcomes (satisfied, empty, unit, new clause, shrunken in place) leaves at that position something that implies the image of the old clause; new units and new binary clauses are reported exactly |
| Substitution.SubstituteClauses | src/cadical/decompose.cpp:486-690 | after the pass over the clauses every live one consists of representatives and the images of all old ones are implied, redundant ones included; an empty clause refutes the given formula |
| Substitution.SubstitutionKeeps | src/cadical/decompose.cpp:417-690 | substitution keeps the reconstruction invariant, also when edges and redundant clauses follow only from the given formula |
| Substitution.DecomposeRound | src/cadical/decompose.cpp:130-733 | a whole round: a new conflict refutes the given formula; otherwise the state is sound, no substituted literal is left in a clause in use, every clause was replaced by one that implies its image, and the round is successful if and only if there is a new unit or a clause was replaced by a binary one |
| Conditioning.NoAutarkyAtAll | src/cadical/condition.cpp:484-487 | once every assigned literal is conditional no candidate can be globally blocked, so that the round may stop |
| Conditioning.SolvableIffBlocked | src/cadical/condition.cpp:512-832 | what a candidate is removed for is global blocking: some autarky and conditional literals of the assignment block it globally in the formula |
| Conditioning.ConditionKeeps | src/cadical/condition.cpp:756-801 | removing a globally blocked clause with its autarky as witness keeps the reconstruction invariant |
| ConditionRound.Round.Refine | src/cadical/condition.cpp:555-705 | when the nested worklists end below the limit with an autarky literal left, every conditional literal that is still assigned occurs negated in the candidate and no clause touched by the autarky part is left unsatisfied; no solution was lost on the way |
| ConditionRound.Round.TryCandidate | src/cadical/condition.cpp:512-832 | below the limit the candidate is removed if and only if some split of the initial assignment makes it globally blocked; assignment and partition are restored |
| ConditionRound.Round.Prepare | src/cadical/condition.cpp:283-396 | the conditional part holds the negations of literals in unsatisfied clauses, every touched satisfied clause is watched, and only root-satisfied clauses are removed |
| ConditionRound.Round.ConditionRound | src/cadical/condition.cpp:155-890 | exactly the root-satisfied clauses become garbage beforehand, the candidates are exactly the other live clauses with a true literal, and of those tried, which are all unless the limit was hit, exactly the ones that are no reasons and that a part of the assignment blocks globally are removed; nothing else changes, and a candidate costs at most one propagation for each assigned literal |
| CoverClause.Coveror.Intersect | src/cadical/cover.cpp:194-303 | the marking loop computes exactly the literals common to all candidates, also when it stops early; it finds no candidate if and only if all are doubly satisfied |
| CoverClause.Coveror.PropagateAsymmetric | src/cadical/cover.cpp:100-176 | every added literal is false in all models of the rest that falsify the clause; subsumption found means the rest implies the covered literals; otherwise the whole watch list is settled, and watch lists stay correct while the tried clause is ignored |
| CoverSettled.SettledIsQuiescent | src/cadical/cover.cpp:100-176 | once all added literals were propagated, no clause but the tried one is unit or falsified |
| CoverClause.Coveror.CoveredLiteralAddition | src/cadical/cover.cpp:64-77 | the common literals extend the chain of covered literal additions and the private stack together |
| CoverClause.Coveror.PropagateCovered | src/cadical/cover.cpp:181-319 | true if and only if the literal is not frozen and has no candidate; otherwise something was added or the candidates have nothing in common |
| CoverClause.Coveror.PropagateAll | src/cadical/cover.cpp:358-371 | terminates; without success all added literals were propagated completely and no covered literal has anything to add |
| CoverClause.Coveror.CoverClause | src/cadical/cover.cpp:323-463 | sound removal or no removal: if the clause stays and is not tautological, then the false literals follow from falsifying the extended clause, no other clause is unit or falsified, and every covered literal that is not frozen has a candidate and an empty intersection; an asymmetric tautology is implied by the rest |
| Covering.CopyExtension | src/cadical/cover.cpp:380-443 | the flat private stack is cut into exactly its entries, each with the missing literals of the clause where the code adds them |
| CoverSteps.CoverKeeps | src/cadical/cover.cpp:323-463 | removing a covered clause keeps the reconstruction invariant |
| DrupChecker.Checker.Propagate | src/cadical/checker.cpp:385-446 | success leaves every watch settled under the whole trail; failure means the stored clauses contradict the assumptions; the root part of the invariant survives |
| Propagation.PropagatedIsQuiescent | src/cadical/checker.cpp:385-446 | settled watches mean that no live clause is falsified or unit under the trail |
| Propagation.QuiescentIsNotRefuted | src/cadical/checker.cpp:385-446 | a trail without unit or falsified clauses cannot be refuted by naive unit propagation in any order |
| DrupChecker.Checker.Check | src/cadical/checker.cpp:448-458 | accepted clauses are implied; a rejected clause is refuted by no naive propagation from the root trail and the negated clause; trail and clauses are as before |
| DrupChecker.Checker.Backtrack | src/cadical/checker.cpp:363-376 | the trail is cut back to the given length and the value array agrees with it again |
| HashTable.EnlargeClauses | src/cadical/checker.cpp:88-107 | doubling the table keeps its size a power of two and every clause in the bucket of its hash value |
| HashTable.MaskIsRemainder | src/cadical/checker.cpp:292-303 | masking a hash value with a power of two minus one is the remainder, so every bucket can be hit |
| HashTable.HashTellsIdentifiers | src/cadical/checker.cpp:305-309 | with odd nonces, which is what the constructor of the checker makes them, two 64-bit identifiers with the same remainder modulo four have the same hash value only if they are equal |
| HashTable.Find | src/cadical/checker.cpp:311-333 | finds a stored clause with the hash value and literal set if and only if there is one |
| DrupChecker.Checker.Insert | src/cadical/checker.cpp:335-343 | the new clause is stored under its hash value, watched, and everything else is as before |
| DrupChecker.Checker.CollectGarbageClauses | src/cadical/checker.cpp:122-169 | exactly garbage and root-satisfied clauses are freed, and no watch refers to them any more |
| CheckerClauses.Tautological | src/cadical/checker.cpp:270-288 | true if and only if the clause is tautological or has a true literal; otherwise the sorted clause has the same literals without duplicates |
| DrupChecker.Checker.AddClause | src/cadical/checker.cpp:501-538 | a new clause becomes a conflict, a propagated unit or a stored clause; nothing else is stored |
| DrupChecker.Checker.AddOriginalClause | src/cadical/checker.cpp:542-559 | the clause joins the given ones and can be deleted later under its identifier |
| DrupChecker.Checker.AddDerivedClause | src/cadical/checker.cpp:561-586 | accepted means implied by what was added before and noted as such, or that some literal survives the test for blocked clauses; rejected means neither refuted by propagation nor blocked nor true at the root, and then nothing changes; trust is lost only if no surviving literal blocks the clause in what is propagated |
| DrupChecker.Checker.DeleteClause | src/cadical/checker.cpp:590-624 | deleting an added, not yet deleted clause always succeeds and removes one stored copy unless it is true at the root; without a clause of these literals and this hash value it fails; another identifier loses its clause only if both literals and hash value agree |
| DrupChecker.Checker.AddAssumptionClause | src/cadical/checker.cpp:626-632 | accepted or rejected under the conditions for derived clauses; unless the checker becomes inconsistent the deletable clauses are those before |
| DrupChecker.InconsistentIsUnsatisfiable | src/cadical/checker.cpp:501-632 | over every run without a blocked acceptance: an inconsistent checker means the given clauses are unsatisfiable |
| DrupChecker.TrustedIsUnsatisfiable | src/cadical/checker.cpp:501-632 | the same over every run in which each clause accepted as blocked had a trusted survivor and all original clauses came before the first one |
| DrupChecker.StoredIsImplied | src/cadical/checker.cpp:501-632 | over every such run: every stored clause and every root unit is implied by the given clauses |
| CheckerBlocked.CheckBlocked | src/cadical/checker.cpp:460-497 | true if and only if some literal of the clause survives the scan of the hash table |
| CheckerBlocked.BlockedIffUnassigned | src/cadical/checker.cpp:460-497 | a surviving literal blocks the clause in the stored clauses and root units if and only if the root trail does not falsify it |
| CheckerBlocked.AcceptedKeepsSatisfiable | src/cadical/checker.cpp:460-497 | accepting a clause for a literal that is not falsified keeps satisfiability of stored clauses and root units in both directions |
| CheckerBlocked.FalsifiedSurvivorIsAccepted | src/cadical/checker.cpp:460-497 | with the unit -1 on the trail and no stored clause, the clause 1 survives although adding it makes a satisfiable formula unsatisfiable |
| CheckerBlocked.BlockedIffTrusted | src/cadical/checker.cpp:460-497 | a surviving literal blocks the clause in everything that is propagated if and only if it is not falsified and no deleted binary clause that was not freed yet stands against it |
| CheckerBlocked.TrustedKeepsSatisfiable | src/cadical/checker.cpp:460-497 | accepting a clause for such a literal keeps satisfiability of what is propagated in both directions |
| CheckerBlocked.DeletedBinariesAreIgnored | src/cadical/checker.cpp:403-408 | with the deleted clauses 1 2 and 1 -2 in memory the clause -1 survives, although it makes what is propagated unsatisfiable |
| DrupChecker.FalsifiedSurvivorRun | src/cadical/checker.cpp:542-586 | that state is reached: adding the original clause -1 and deriving the clause 1 is accepted and leaves the checker inconsistent on satisfiable input |
| DecisionQueue.Queue.Dequeue | src/cadical/queue.hpp:38-48 | the doubly linked list represents the old order without the variable |
| DecisionQueue.Queue.Enqueue | src/cadical/queue.hpp:50-58 | the list represents the old order with the variable at the end |
| DecisionQueue.Queue.InitEnqueue | src/cadical/queue.cpp:8-38 | a new variable becomes the last one with the largest stamp and the search starts there, or in reverse order the first one with the smallest stamp; then the search start stays valid if and only if the noted stamp does not lag behind |
| DecisionQueue.Queue.BumpQueue | src/cadical/analyze.cpp:52-65 | the variable moves behind all others; every variable with a stamp above the noted one stays assigned even though the noted stamp may lag behind |
| DecisionQueue.Queue.BumpVariables | src/cadical/analyze.cpp:175-202 | bumping variables in stamp order moves them behind all others without changing their relative order |
| DecisionQueue.SortedIsAmong | src/cadical/analyze.cpp:175-202 | sorting by stamps puts the bumped variables into the order they have in the queue |
| DecisionQueue.MovedBehind | src/cadical/analyze.cpp:175-202 | after bumping, two variables that were both bumped or both not are in the order in which they were, and a bumped one comes after all others |
| DecisionQueue.Queue.NextDecision | src/cadical/decide.cpp:12-24 | the unassigned variable with the largest stamp |
| DecisionQueue.Queue.NoticeUnassigned | src/cadical/backtrack.cpp:24-29 | unassigning a variable keeps the search start valid |
| Trail.BackOk | src/cadical/backtrack.cpp:88-175 | backtracking with literals kept out of order keeps positions, values, the start of every level, reasons assigned before what they force, and root literals implied |
| Trail.BackOrder | src/cadical/backtrack.cpp:120-145 | the literals that are kept stay in their order |
| Search.Searcher.Backtrack | src/cadical/backtrack.cpp:88-175 | exactly the literals of higher levels lose their values; the loop that moves kept literals down computes the value-level backtracking, the queue still points to an unassigned variable of largest stamp, and everything from the start of the first level that is left on has to be propagated again |
| Search.LevelIsUsed | src/cadical/propagate.cpp:38-55 | a forced literal may be assigned at the highest level of the other literals of its clause; at level zero it is implied by the formula |
| Search.Searcher.SearchAssign | src/cadical/propagate.cpp:99-163 | the literal joins the trail at the assignment level of its reason and everything that holds between steps is kept |
| Search.Searcher.SearchAssumeDecision | src/cadical/propagate.cpp:181-188 | a new level starts with its decision |
| Analyze.Analyzer.ConflictLevel | src/cadical/analyze.cpp:574-593 | the highest level of the conflict and its literal if and only if it is the only one there, in spite of the early exit |
| Analyze.Analyzer.MoveHighest | src/cadical/analyze.cpp:600-637 | literals of the two highest levels come first and the clause is otherwise a permutation |
| Analyze.Analyzer.FindConflictLevel | src/cadical/analyze.cpp:574-646 | both together; only the order of the literals of the conflict changes and the trail stays justified |
| Analyze.Analyzer.AnalyzeLiteral | src/cadical/analyze.cpp:253-314 | a false literal is dropped, joins the clause or is left to be resolved, `open` counts the latter, and levels are listed once |
| Analyze.Analyzer.AnalyzeReason | src/cadical/analyze.cpp:316-326 | clause and negated open literals stay a consequence of the formula, and exactly the variables of the reason above the root are seen in addition |
| ConflictSteps.DropHandled | src/cadical/analyze.cpp:257-314 | leaving out a literal that is false at the root, in the clause already, or open already keeps the derived clause implied |
| ConflictSteps.Resolve | src/cadical/analyze.cpp:1259-1271 | resolving with the reason of an open literal keeps the derived clause implied |
| ConflictSteps.HasReason | src/cadical/analyze.cpp:1260-1262 | while another literal of the level is open, the last one is not the decision and has a reason |
| Analyze.Analyzer.FirstUip | src/cadical/analyze.cpp:1128-1274 | ends with a clause that follows from the formula, is false, and has one literal of the conflict level, which is the first unique implication point of the conflict; its other literals are exactly the ones of lower levels in the conflict and the reasons resolved with, and the analyzed literals are all literals above the root in them |
| ImplicationGraph.TakeReached | src/cadical/analyze.cpp:1230-1261 | a literal that is taken from the trail is a unique implication point of the implication graph if and only if no other one is open |
| ImplicationGraph.ResolveReached | src/cadical/analyze.cpp:316-326 | after its reason was analyzed, the seen literals of the level are those the conflict depends on through later ones, and the seen literals above the root are those in the clauses that were looked at |
| ImplicationGraph.SeenIsInvolved | src/cadical/analyze.cpp:253-326 | the seen flags tell exactly the false literals above the root that occur in the conflict or in the reason of a literal the conflict depends on down to the implication point |
| ConflictSteps.LevelsAreListed | src/cadical/analyze.cpp:306-309 | the number of listed levels is the number of levels in the learned clause |
| BackjumpSteps.RankOrder | src/cadical/analyze.cpp:477-498 | the packed 64-bit rank orders by descending level and then by descending trail position |
| Analyze.Msort | src/cadical/analyze.cpp:531-532 | sorting by a rank gives the increasing permutation |
| BackjumpSteps.SortedClause | src/cadical/analyze.cpp:524-535 | after sorting the literal of the conflict level is first and the level of the second one is the jump level |
| Analyze.Analyzer.NewDrivingClause | src/cadical/analyze.cpp:503-542 | a unit is not stored; any other asserting clause is sorted and added; the jump level is the highest level of the other literals |
| Analyze.Analyzer.ActualBacktrackLevel | src/cadical/analyze.cpp:650-725 | the level is determined by the options: the jump level, the one below the conflict, or when the trail is reused the highest one below the conflict that starts no later than the variable with the largest stamp above the jump level |
| Analyze.Analyzer.ReuseTrail | src/cadical/analyze.cpp:676-719 | the position of the variable with the largest stamp above the jump level comes after the start of the resulting level, and before the start of the next one unless that one is the conflict level |
| BackjumpSteps.BestStays | src/cadical/analyze.cpp:703-712 | stopping below the frame above the best variable keeps that variable assigned, so no variable that loses its value has a larger stamp than one that keeps it |
| BackjumpSteps.BackForces | src/cadical/analyze.cpp:1337-1354 | going back to a level between makes a false clause with one literal above it a unit of just that literal |
| BackjumpSteps.DrivenLevel | src/cadical/analyze.cpp:1337-1354 | after backtracking to any such level the flipped literal is assigned at the jump level |
| Analyze.Analyzer.BumpVariables | src/cadical/analyze.cpp:175-202 | the analyzed variables move behind all others in the queue in their relative order |
| Analyze.Analyzer.Subsumes | src/cadical/analyze.cpp:747-755 | counting marked literals down decides whether all literals of one clause occur in the other |
| Analyze.Analyzer.EagerlySubsume | src/cadical/analyze.cpp:729-761 | exactly the redundant clauses among the most recent ones that contain the new clause become garbage |
| BackjumpSteps.SubsumptionKeeps | src/cadical/analyze.cpp:729-761 | the clauses in use have the same models as before |
| BackjumpSteps.RootConflict | src/cadical/analyze.cpp:1103-1111 | a conflict at level zero refutes the formula |
| Analyze.Analyzer.Analyze | src/cadical/analyze.cpp:1021-1374 | refutes the formula if and only if the conflict level is zero, assigns the only literal of the conflict level from the conflict, or learns exactly the clause of the first unique implication point, goes back to the level that the options determine and assigns the flipped literal at the jump level; exactly the variables the analysis came across are bumped; afterwards the conflict is no longer false |
| Assumptions.DecisionIsAssumed | src/cadical/assume.cpp:297-304 | while only levels of assumptions exist, a literal without reason is a unit or an assumption |
| Assumptions.BackAssumed | src/cadical/backtrack.cpp:88-175 | backtracking keeps levels matched with assumptions |
| Assumptions.Assumer.SearchConstraint | src/cadical/decide.cpp:239-313 | the rotating scan moves the first true literal to the front and keeps the order of the others, or restores the constraint and finds the unassigned literal of largest stamp |
| Assumptions.Assumer.Decide | src/cadical/decide.cpp:217-346 | fails if and only if the next assumption or the whole constraint is false; otherwise opens the level of an assumption, of the constraint, or of the unassigned variable with the largest stamp, in the given phase |
| Assumptions.BlockedFails | src/cadical/decide.cpp:217-313 | a failed decision is what the analysis of failed assumptions needs |
| Assumptions.Assumer.ChooseFailing | src/cadical/assume.cpp:99-164 | the first assumption false at the root, else the first clashing one, else the first one falsified on the lowest level |
| Assumptions.Assumer.ExplainFailure | src/cadical/assume.cpp:269-306 | the search through reasons visits exactly the literals on chains of reasons from the literals it starts with, each once, and marks exactly the ones without reason above the root, which are assumptions |
| Assumptions.AnalyzedAreForced | src/cadical/assume.cpp:269-306 | every literal that was visited is true in all models in which the marked assumptions are true |
| Assumptions.Assumer.Failing | src/cadical/assume.cpp:77-306 | the marked assumptions are inconsistent with the formula, or with the formula and the constraint if that one failed; they are exactly the chosen one, with its negation if the two clash, or with the assumptions reached through reasons from its negation; for a failed constraint, those reached from the negations of its literals |

## Left out

- Internal and external variable numbering (`externalize`) is the identity; `e2i` appears only in `Extension.External.Import`.
- Proof output, LRAT chains, statistics, logging, effort limits, time-outs and options that only steer effort.
- Schedules: which literals, variables and clauses are tried and in which order (`block_schedule`, `block_reschedule`, `elim_round`, `cover_round`, the candidate order of `condition_round`).
- Counters of occurrences (`noccs`): the number of live clauses in the occurrence list is used instead.
- Finding gates for elimination: that the gate clauses define the pivot is a hypothesis (`GatesDefine`).
- Connecting watch and occurrence lists before a technique starts: that they are complete, and that root-level literals have been propagated, are hypotheses.
- Watches and blocking literals of the main solver during substitution; they are rebuilt afterwards. Propagating the units found by a round and marking variables as substituted come after the modelled part.
- Sorting: `MSORT` and `sort` are represented by their result, or by insertion.
- VariableElimination.TryToEliminateVariable: sorting the two occurrence lists by clause size is left out; whatever order they have is used.
- CoverClause.Coveror.CoverClause: clauses found asymmetric tautological are counted but not removed by the code, as in the model; the order of literals in watched clauses is kept apart from the clause table.
- DecisionQueue.Queue.InitEnqueue: in reverse order the noted stamp may lag behind the new one; whether a run of the search gets there is not settled.
- ConditionRound.Round.ConditionRound: choosing the initial decisions and sorting candidates by their conditioned bits are not modelled; the assignment is any consistent one without root values.
- DrupChecker.TrustedIsUnsatisfiable: after a clause was accepted as blocked without a trusted survivor, or an original clause was added after one accepted as blocked, nothing is claimed about the given clauses.
- DrupChecker.Checker.DeleteClause: deleting from a table that was never allocated is excluded unless the clause was added, as the code would read a null pointer there.
- Substitution.DecomposeRound: one round; repeating rounds needs the flags and watch lists of the next one.
- Search.Searcher: the watch lists of the search are not part of this model; `propagate` enters as assigning literals that some clause forces. Changing watches in `find_conflict_level` is left out with them.
- Analyze.Analyzer.Analyze: on-the-fly strengthening, external propagators and `fix_trail_levels`, minimizing and shrinking the learned clause, bumping reason-side literals and clauses are left out; what follows a learned clause is proved for any asserting clause. Variable scores are left out, so decisions and bumping are those of the queue.
- Analyze.Analyzer.NewDrivingClause: the empty clause, which only the parts left out can derive here, is not handled; the clause record has no glue, which `Analyze` returns instead.
- Assumptions.Assumer.Decide: asking an external propagator for a decision is left out, the phase is a parameter, and simplifying a new constraint (`constrain`) is left out; that it has no duplicates is part of `Valid`.
- Assumptions.Assumer.Failing: the proof chains and the clause of negated failed assumptions, which only checks and proofs use, are left out.
- The congruence closure, the copying garbage collector, variable compaction, the proof writer and the C handle are not part of this model.
