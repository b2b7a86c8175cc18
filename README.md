# A propositional theorem prover, modelled in Dafny

This project models the logic core of a small Java theorem prover for
propositional logic. The prover comes in two packages. Both are modelled.

**`reasoning` (n-ary formulas).**
- A formula is an atom or a construction with a connective over a list of terms, each carrying a count of negations.
- `LogicMethods` rewrites a formula towards conjunctive normal form: double-negation elimination, arrow elimination, De Morgan, and distribution of OR over AND. It scans the rendered result back into a set of clauses.
- It refutes a clause set by resolution saturation.
- It searches for a model with a Davis–Putnam style procedure: unit propagation, pure literals, splitting and completion.
- `ClauseNormalForm` is the clause store, `ResolutionProof` the proof trace and `LogicModel` the truth assignment.
- `ExpressionParser` reads infix formulas, premises-and-conclusion sequents, and a one-digit subset of DIMACS.

**`reasoning2` (binary formulas).**
- Constructions have a left and a right operand.
- Normal-form conversion is a pipeline of stages: `resolveArrows`, `performDeMorgans`, `shuffleExpression`, `simplifyDisj`, `simplifyConj`, `simplifyFalsehoods`, then `formClauses` over the rendering.
- It has the same resolution loop and an unfinished Davis–Putnam procedure that only propagates units.

**How the model is organised.**
- Literals of clauses in both packages are `Clauses.Literal(name, negs)`. A clause is a `set<Literal>` and a clause set is a `set<set<Literal>>`.
- The source's `isNegated` compares renderings: one rendering must equal the other with the negation token in front. In `reasoning` this is modelled as the structural relation "same name, negation counts one apart". `LogicMethods.IsNegatedByRendering` proves that relation agrees with the string test under any injective rendering that prepends "-".
- In `reasoning2` the renderings themselves are modelled (`BinaryExpression.ToString`), and `isNegated` is the string test on them.
- Objects whose fields the source updates are classes: `ClauseNormalForm`, `ResolutionProof` and both `LogicModel`s.
- Loops are methods, each proved against a specification function or predicate. The properties are lemmas about those functions.
- Java exceptions become `Wrappers.Result` values carrying a `Fault` (NullPointer, IndexOutOfBounds, NumberFormat). A `null` return becomes `Option`. A loop that never ends becomes `Run.Diverges`.
- Formula values are given by `Eval` over an assignment `string -> bool`. An atom with k negations means its variable when k is even and its negation when k is odd.

**Where the source's documentation and evident intent disagree with the code, the model follows the code.**
- Resolution on a clause set that already holds the empty clause, but has no complementary pair, ends SATISFIABLE. The code only checks for the empty clause after deriving a resolvent (src/reasoning/LogicMethods.java:532-541). `Resolution.ResolutionProof` states exactly this.
- `resolveArrows` and `performDeMorgans` in `reasoning2` apply `dne` while the negation count is at least 2, and `dne` leaves odd counts unchanged. A node with an odd count of 3 or more therefore loops forever (src/reasoning2/LogicMethods.java:390-394, 418-422). The model returns `Diverges` there. `BinaryNormalForm.ResolvedHalts` and `BinaryClauses.TransformHalts` characterise exactly which inputs end.
- `formClauses` reads the character before each literal, so a rendering that starts with a literal, such as a lone atom, throws (src/reasoning2/LogicMethods.java:658). `BinaryClauses.FormFromThrows` and `BinaryClauses.TransformAtomThrows` state this.
- In `reasoning`'s `findClauses`, an arrow in the scanned text stops the position on the arrow, so the scan never ends. `FindClauses.ArrowStalls` states this.
- `transform` does not always produce a flat conjunctive normal form. When it folds the terms of an AND, a converted term that is itself a conjunction is appended whole, and distribution then puts that conjunction inside a disjunct (src/reasoning/LogicMethods.java:108-110, 346-376). An example is ((X ∨ (Y ∧ Z)) ∧ (P ∨ (Q ∧ R))) ∨ E. `LogicMethods.NestedConjunctionKept` exhibits the step, and `LogicMethods.Transform` promises only what holds: the same value, negation normal form, and an AND, an atom or a one-term OR at the top.

## Model

| member | source | states |
|---|---|---|
| Terminal.ToString | src/reasoning/Terminal.java:12-27 | every connective has a non-empty token; the token starts with '-' exactly for NOT and IMPLICATION |
| Terminal.FromString | src/reasoning/Terminal.java:35-50 | a connective read from a string is one whose token is that string |
| Terminal.FromStringToString | src/reasoning/Terminal.java:12-50 | reading a connective's token gives back that connective, for all five |
| Terminal.FromStringNull | src/reasoning/Terminal.java:35-50 | reading gives null exactly for strings that are no connective's token |
| Terminal.ToStringInjective | src/reasoning/Terminal.java:12-27 | distinct connectives have distinct tokens |
| LogicExpression.GetType | src/reasoning/LogicExpression.java:13-20 | the type is ATOM exactly for atoms, CONSTRUCTION otherwise |
| LogicExpression.GetName | src/reasoning/LogicExpression.java:22-27 | an atom's name; null exactly for constructions |
| LogicExpression.GetTerms | src/reasoning/LogicExpression.java:29-34 | a construction's terms; null exactly for atoms |
| LogicExpression.GetTerminal | src/reasoning/LogicExpression.java:36-41 | a construction's connective; null exactly for atoms |
| LogicExpression.MaxOf | src/reasoning/LogicExpression.java:50-55 | the largest of the children's depths, 0 for none, and always one of them |
| LogicExpression.Depth | src/reasoning/LogicExpression.java:50-55 | the depth is 0 exactly for atoms |
| LogicExpression.Size | src/reasoning/LogicExpression.java:57-62 | the number of terms of a construction, 1 for an atom |
| LogicExpression.AddToFront | src/reasoning/LogicExpression.java:64-71 | a construction under the given connective whose first term is the new one and whose other terms are the old ones (or the atom), one larger |
| LogicExpression.AddToBack | src/reasoning/LogicExpression.java:73-80 | a construction under the given connective whose last term is the new one and whose other terms are the old ones (or the atom), one larger |
| LogicMethods.Negate | src/reasoning/LogicMethods.java:28-41 | the negation count goes up by exactly one; type, name, terms and connective are kept |
| LogicMethods.NegateAll | src/reasoning/LogicMethods.java:51-63 | the list is negated element by element, with the same length and order |
| LogicMethods.Combine | src/reasoning/LogicMethods.java:79-124 | IMPLICATION and EQUIVALENCE give the pair [e1, e2]; for AND/OR the new operand is appended to an un-negated operand with the same connective (at the back, or at the front after an atom), else a fresh two-term node; operand order is kept |
| LogicMethods.Dne | src/reasoning/LogicMethods.java:134-153 | an even count drops by 2 and everything else is kept; an odd count is returned unchanged |
| LogicMethods.DeMorgans | src/reasoning/LogicMethods.java:163-174 | AND becomes OR over the negated terms and OR becomes AND, with count 0; other connectives unchanged |
| LogicMethods.RewriteImplication | src/reasoning/LogicMethods.java:184-198 | L -> R becomes OR[¬L, R] with the node's own negation count |
| LogicMethods.RewriteEquivalence | src/reasoning/LogicMethods.java:208-229 | L <-> R becomes AND[L -> R, R -> L] with the node's own negation count |
| LogicMethods.NegateValue | src/reasoning/LogicMethods.java:28-41 | negation flips the formula's value under every assignment |
| LogicMethods.CombineValue | src/reasoning/LogicMethods.java:79-124 | combine's result means the connective applied to the two operands' values |
| LogicMethods.CombineBackValue | src/reasoning/LogicMethods.java:103-114 | appending into an open AND/OR node means the connective applied to both values |
| LogicMethods.CombineFrontValue | src/reasoning/LogicMethods.java:93-101 | prepending an atom to an open AND/OR node means the connective applied to both values |
| LogicMethods.DneValue | src/reasoning/LogicMethods.java:134-153 | double-negation elimination preserves the value |
| LogicMethods.DeMorgansValue | src/reasoning/LogicMethods.java:163-174 | on a once-negated AND/OR, De Morgan preserves the value |
| LogicMethods.ImplicationValue | src/reasoning/LogicMethods.java:184-198 | the implication rewrite preserves the value |
| LogicMethods.EquivalenceValue | src/reasoning/LogicMethods.java:208-229 | the equivalence rewrite preserves the value |
| LogicMethods.IsNegated | src/reasoning/LogicMethods.java:241-249 | mutually negated expressions differ in negation count and share name and terms |
| LogicMethods.IsNegatedByRendering | src/reasoning/LogicMethods.java:241-249 | under any injective rendering that writes a negation as a leading "-", the structural test agrees with the source's string test in both directions |
| LogicMethods.IsNegatedAtoms | src/reasoning/LogicMethods.java:241-249 | two atoms are negations of each other iff they share a name and their counts differ by one |
| LogicMethods.IsNegatedValue | src/reasoning/LogicMethods.java:241-249 | mutually negated formulas have opposite values |
| LogicMethods.RewriteImplicationLighter | src/reasoning/LogicMethods.java:295-297 | the recursive call after the implication rewrite is on a lighter formula |
| LogicMethods.RewriteEquivalenceLighter | src/reasoning/LogicMethods.java:300-302 | the recursive call after the equivalence rewrite is on a lighter formula |
| LogicMethods.DeMorgansWeight | src/reasoning/LogicMethods.java:305-307 | De Morgan keeps the weight, so recursion continues on the same measure with the negation moved inwards |
| LogicMethods.RewritesWellFormed | src/reasoning/LogicMethods.java:295-307 | the three rewrites keep a well-formed formula well formed |
| LogicMethods.DropDoubleNegations | src/reasoning/LogicMethods.java:285-287 | the intended first step: the count is reduced to its parity and all else kept |
| LogicMethods.DropDoubleNegationsValue | src/reasoning/LogicMethods.java:285-287 | reducing the count to its parity preserves the value |
| LogicMethods.NegationStepKeepsShape | src/reasoning/LogicMethods.java:285-287 | the negation step, as written and as intended, keeps well-formedness and weight |
| LogicMethods.Conjuncts | src/reasoning/LogicMethods.java:357-358 | the terms a disjunct contributes: the atom itself or the conjunction's terms |
| LogicMethods.ConjunctValue | src/reasoning/LogicMethods.java:357-358 | a conjunct means the conjunction of its terms |
| LogicMethods.Row | src/reasoning/LogicMethods.java:360-367 | the inner loop: one combine(ai, bj, OR) per term bj, in order |
| LogicMethods.CrossLength | src/reasoning/LogicMethods.java:360-367 | the nested loops produce the product of the two lengths in terms |
| LogicMethods.CrossRowMajor | src/reasoning/LogicMethods.java:360-367 | term i·|b|+j of the product is combine(ai, bj, OR) |
| LogicMethods.CrossRows | src/reasoning/LogicMethods.java:360-367 | the pairing at row i's start plus j is the jth pairing of row i |
| LogicMethods.CrossValue | src/reasoning/LogicMethods.java:360-367 | the conjunction of all pairwise disjunctions holds iff one of the two conjunctions holds |
| LogicMethods.RowValue | src/reasoning/LogicMethods.java:360-367 | the conjunction of one row holds iff ai holds or the whole of b holds |
| LogicMethods.CombineNnf | src/reasoning/LogicMethods.java:363 | combining two negation-normal operands by AND/OR stays in negation normal form |
| LogicMethods.CrossNnf | src/reasoning/LogicMethods.java:360-367 | the product of negation-normal terms is negation normal |
| LogicMethods.DistributeStepCorrected | src/reasoning/LogicMethods.java:354-374 | one step replaces the first two disjuncts by one AND at the front whose terms are the row-major product; the rest is kept |
| LogicMethods.DistributeStep | src/reasoning/LogicMethods.java:354-374 | as written, the step throws NullPointer exactly when the first disjunct is an atom, or the second is an atom and the first has terms; otherwise it is the step above |
| LogicMethods.DistributeStepShape | src/reasoning/LogicMethods.java:354-374 | a step keeps a list of conjunct-shaped disjuncts |
| LogicMethods.DistributeStepValue | src/reasoning/LogicMethods.java:354-374 | a step preserves the disjunction's value |
| LogicMethods.FoldFirst | src/reasoning/LogicMethods.java:317-324 | the first transformed term starts the fold (the NullPointer catch) |
| LogicMethods.FoldNext | src/reasoning/LogicMethods.java:317-324 | each further term is combined into the fold, keeping its meaning for all assignments |
| LogicMethods.FoldStep | src/reasoning/LogicMethods.java:317-324 | one combine step extends the folded value by one term |
| LogicMethods.OrFoldStep | src/reasoning/LogicMethods.java:337-344 | folding conjunct-shaped terms by OR gives a disjunction of conjuncts |
| LogicMethods.Distribute | src/reasoning/LogicMethods.java:346-376 | repeated steps end with one AND node in negation normal form; corrected, the value is preserved; as written, an atom first disjunct throws |
| LogicMethods.TransformTerms | src/reasoning/LogicMethods.java:310-378 | the AND and OR branches: the folded result's shape, its value (corrected) and the exact as-written results on atom-only conjunctions and atom-led disjunctions |
| LogicMethods.TransformWith | src/reasoning/LogicMethods.java:279-383 | the result is a conjunct in negation normal form; corrected, it has the input's value; as written, it returns lone atoms unchanged, drops an odd count on an atom conjunction and throws on an atom-led disjunction |
| LogicMethods.TransformAsWritten | src/reasoning/LogicMethods.java:279-383 | as written: an odd count ≥ 3 on a conjunction of atoms is dropped, and an atom-led disjunction throws NullPointer |
| LogicMethods.Transform | src/reasoning/LogicMethods.java:279-383 | the corrected transform: the same value as the input under every assignment, negation normal form, and an atom, an un-negated AND or a one-term OR around one at the top; not necessarily flat |
| LogicMethods.NestedConjunctionKept | src/reasoning/LogicMethods.java:346-376 | folding two converted conjunctions under AND nests the second inside the first, and distributing an atom over the result gives a disjunct that holds a conjunction |
| LogicMethods.DroppedNegationsFlipValue | src/reasoning/LogicMethods.java:305-327 | dropping an odd count from a conjunction gives the opposite value |
| LogicMethods.TransformCounterexamples | src/reasoning/LogicMethods.java:305-360 | ---(A & B) and A \| B are well formed and fall in the two as-written failure cases |
| Text.FindLiteral | src/reasoning/LogicMethods.java:397-413 | the regex [A-Z]+[0-9]* from a position: the first match, with no capital before it, or none exactly when no capital follows |
| Text.FindTerminal | src/reasoning/ExpressionParser.java:233-237 | the regex &, \|, ->, <-> from a position: the first token, with none before it, or none exactly when no token follows |
| Text.DashesBefore | src/reasoning/ExpressionParser.java:244-253 | the number of consecutive '-' directly before a position |
| Clauses.ComplementsIsNegated | src/reasoning/LogicMethods.java:241-249 | on literals, the complement relation is isNegated of their atoms, both directions |
| Clauses.ComplementsValue | src/reasoning/LogicMethods.java:241-249 | complementary literals have opposite values |
| Clauses.Resolvent | src/reasoning/LogicMethods.java:519-524 | c1 ∪ c2 minus the cancelled literal of each side |
| Clauses.ResolventSound | src/reasoning/LogicMethods.java:519-524 | an assignment satisfying both parents satisfies the resolvent |
| Clauses.Shrink | src/reasoning/LogicMethods.java:797-805 | the clause without the unit's complements |
| Clauses.Reduced | src/reasoning/LogicMethods.java:788-813 | clauses containing the unit are dropped and the rest lose the unit's complements |
| Clauses.ReducedValue | src/reasoning/LogicMethods.java:788-813 | under an assignment making the unit true, the reduced set holds iff the original does |
| Clauses.ReducedDropsUnit | src/reasoning/LogicMethods.java:788-813 | neither the unit nor its complement survives reduction |
| Clauses.ReducedKeepsEmpty | src/reasoning/LogicMethods.java:788-813 | an empty clause survives reduction |
| Clauses.ReducedDropsName | src/reasoning/LogicMethods.java:788-813 | with counts at most one, the unit's name disappears entirely |
| Clauses.ReducedSize | src/reasoning/LogicMethods.java:788-813 | reduction never grows the set, and strictly shrinks it when the unit is a unit clause |
| ComplementingPair.Accessors | src/reasoning/ComplementingPair.java:22-49 | getFirst and getSecond return the clauses given to the constructor |
| ComplementingPair.ToString | src/reasoning/ComplementingPair.java:29-31 | the first rendering, ", ", then the second |
| ClauseNormalForm.ComplementIn | src/reasoning/ClauseNormalForm.java:89-95 | true iff the clause holds a complement of the literal |
| ClauseNormalForm.ClauseNormalForm.constructor | src/reasoning/ClauseNormalForm.java:25-29 | the store holds the given clause set |
| ClauseNormalForm.ClauseNormalForm.GetCnf | src/reasoning/ClauseNormalForm.java:37-39 | the stored clause set itself |
| ClauseNormalForm.ClauseNormalForm.PartnerFor | src/reasoning/ClauseNormalForm.java:86-97 | another stored clause with a complement of the literal, or none exactly when there is none |
| ClauseNormalForm.ClauseNormalForm.PartnerOf | src/reasoning/ClauseNormalForm.java:84-100 | another stored clause complementary to the given one, or none exactly when there is none |
| ClauseNormalForm.ClauseNormalForm.FindUnresolvedPair | src/reasoning/ClauseNormalForm.java:78-106 | a pair of distinct stored clauses, the first not resolved, with a complementary literal pair; null exactly when no such pair exists (the second may be resolved) |
| ClauseNormalForm.ClauseNormalForm.HasComplement | src/reasoning/ClauseNormalForm.java:116-133 | true iff some literal has the atom's name and the opposite 0/1 count |
| ClauseNormalForm.ClauseNormalForm.Add | src/reasoning/ClauseNormalForm.java:143-147 | set insertion in place, returning the store itself |
| ClauseNormalForm.ClauseNormalForm.Equals | src/reasoning/ClauseNormalForm.java:153-166 | equal iff the clause sets are equal |
| ClauseNormalForm.ClauseNormalForm.GetAtoms | src/reasoning/ClauseNormalForm.java:174-188 | exactly the un-negated atoms of the names that occur, in any polarity |
| ClauseNormalForm.ClauseNormalForm.ToString | src/reasoning/ClauseNormalForm.java:41-68 | throws (None) exactly for an empty store or one holding the empty clause; otherwise "{" + the clause texts joined by ", " + "}" |
| ClauseNormalForm.ClauseToString | src/reasoning/ClauseNormalForm.java:47-55 | a clause's text is "{" + its literals' renderings joined by ", " + "}"; the empty clause throws |
| ResolutionProof.ResolutionProof.constructor | src/reasoning/ResolutionProof.java:21-23 | a new proof has no lines and no verdict |
| ResolutionProof.ResolutionProof.WithLines | src/reasoning/ResolutionProof.java:31-34 | the proof holds the given lines and verdict |
| ResolutionProof.ResolutionProof.GetLine | src/reasoning/ResolutionProof.java:71-85 | the 1-based index of the first line deriving the clause, or -1 exactly when none does |
| ResolutionProof.ResolutionProof.AddLine | src/reasoning/ResolutionProof.java:92-94 | the line is appended and earlier lines and the verdict are unchanged |
| ResolutionProof.ResolutionProof.SetResult | src/reasoning/ResolutionProof.java:101-103 | the verdict is the one given and the lines are unchanged |
| ResolutionProof.ResolutionProof.GetResult | src/reasoning/ResolutionProof.java:110-112 | the recorded verdict, None (null) before one is set |
| ResolutionProof.ResolutionProof.ToString | src/reasoning/ResolutionProof.java:40-63 | the header, the lines numbered from 1, the verdict's text (none when unset) and the footer |
| ResolutionProof.NumberedLinesSnoc | src/reasoning/ResolutionProof.java:40-63 | numbering one more line appends "\n(i+1): line" |
| LogicModel.Valuation | src/reasoning/LogicModel.java:61-72 | the assignment a model denotes gives every stored atom its stored value |
| LogicModel.EntryTexts | src/reasoning/LogicModel.java:29-38 | one "I(name) = T/F" text per entry, in iteration order |
| LogicModel.LogicModel.constructor | src/reasoning/LogicModel.java:21-23 | a new model is empty |
| LogicModel.LogicModel.AddAtom | src/reasoning/LogicModel.java:61-63 | the entry is keyed by the un-negated atom of the name, overwriting any earlier value; other entries stay |
| LogicModel.LogicModel.GetModel | src/reasoning/LogicModel.java:70-72 | the stored map itself; on a valid model every key is an un-negated atom |
| LogicModel.LogicModel.GetSize | src/reasoning/LogicModel.java:80-82 | the number of entries, 0 exactly for the empty model |
| LogicModel.LogicModel.Contains | src/reasoning/LogicModel.java:107-109 | true iff the atom itself is a key, so only un-negated atoms are ever found |
| LogicModel.LogicModel.MergeModel | src/reasoning/LogicModel.java:89-99 | every entry of the other model is copied, its value winning on conflict |
| LogicModel.LogicModel.ToString | src/reasoning/LogicModel.java:25-50 | "none" for an empty model, else the entry texts joined by ", " |
| Resolution.ChooseLiterals | src/reasoning/LogicMethods.java:502-517 | a literal of each clause, the two complementary |
| Resolution.AddResolvent | src/reasoning/LogicMethods.java:519-528 | adding a resolvent keeps every clause a consequence of the input and within the input's literals |
| Resolution.MarkedBound | src/reasoning/LogicMethods.java:484-494 | the resolved clauses are bounded by the number of clauses over the input's literals, so the loop ends |
| Resolution.EmptyClauseRefutes | src/reasoning/LogicMethods.java:532-535 | an empty clause among the consequences makes the input unsatisfiable |
| Resolution.LineOf | src/reasoning/ResolutionProof.java:71-85 | a clause of the store has a line, so the number getLine reports is that of its first line and never -1 |
| Resolution.ResolvePair | src/reasoning/LogicMethods.java:491-529 | one round: the resolvent on a complementary pair, and the first line numbers of both parents; when the resolvent is new it is added to the store and logged as "Res i, j" with those numbers, otherwise nothing changes |
| Resolution.LinesDerived | src/reasoning/LogicMethods.java:519-529 | after a round, every line past the inputs is still the resolvent of two earlier lines whose numbers it cites |
| Resolution.InputLines | src/reasoning/LogicMethods.java:479-481 | one line per input clause, with empty provenance |
| Resolution.LogInputs | src/reasoning/LogicMethods.java:479-481 | the input clauses are logged, each once, with empty provenance |
| Resolution.InputsListStore | src/reasoning/LogicMethods.java:479-481 | the logged lines list the store exactly |
| Resolution.LinesFollowStore | src/reasoning/LogicMethods.java:526-529 | the lines keep listing the store exactly after a round |
| Resolution.ResolveLogged | src/reasoning/LogicMethods.java:491-529 | a round adds the resolvent to the store, which still follows from the input and stays within its literals; the lines still list the store, and every line from the round's start on is a resolvent citing its parents |
| Resolution.ResolveRounds | src/reasoning/LogicMethods.java:484-541 | the loop ends with a verdict; UNSATISFIABLE only with the empty clause stored; SATISFIABLE only when saturated, and always, with the store unchanged, when the store starts with no complementary pair; every later line is a cited resolvent |
| Resolution.ResolutionProof | src/reasoning/LogicMethods.java:471-547 | ends with a verdict; UNSATISFIABLE only with the empty clause and an unsatisfiable input; SATISFIABLE only when no unresolved complementary pair is left, and always when the input has no complementary pair, even if it holds the empty clause; the store only grows by consequences within the input's literals; lines list the store, inputs first with empty provenance, then each line the resolvent of two earlier lines cited as "Res i, j" |
| DavisPutnam.ReduceCnf | src/reasoning/LogicMethods.java:788-813 | the loop builds exactly the reduced set, a fresh value; the input is untouched |
| DavisPutnam.FindSmallestClause | src/reasoning/LogicMethods.java:825-841 | -1 exactly for an empty set, otherwise the size of a smallest clause |
| DavisPutnam.ContainsNegation | src/reasoning/LogicMethods.java:743-752 | true iff the list holds a complement of the literal |
| DavisPutnam.GetNegation | src/reasoning/LogicMethods.java:765-774 | the first complement in the list, or null exactly when there is none |
| DavisPutnam.RemoveFirst | src/reasoning/LogicMethods.java:616 | removing an element from a list takes out one occurrence and nothing else |
| DavisPutnam.RemoveFirstDistinct | src/reasoning/LogicMethods.java:616 | on a list without repeats, removal deletes exactly that element |
| DavisPutnam.ComplementUnique | src/reasoning/LogicMethods.java:613-616 | with counts at most one, a literal has only one complement |
| DavisPutnam.Visit | src/reasoning/LogicMethods.java:611-620 | one literal updates the one- and two-polarity lists consistently with what has been seen |
| DavisPutnam.VisitClause | src/reasoning/LogicMethods.java:609-622 | one clause's literals update the lists consistently |
| DavisPutnam.PureLiterals | src/reasoning/LogicMethods.java:606-622 | the one-polarity list holds occurring literals without repeats and, with counts at most one, exactly the pure literals |
| DavisPutnam.AssignSound | src/reasoning/LogicMethods.java:577-589 | recording a literal and reducing by it keeps the partial model sound |
| DavisPutnam.UnitKept | src/reasoning/LogicMethods.java:570-595 | reducing by a unit clause keeps a satisfiable input satisfiable |
| DavisPutnam.PureFlip | src/reasoning/LogicMethods.java:625-634 | setting a pure literal true keeps a satisfying assignment satisfying |
| DavisPutnam.PureFlipClause | src/reasoning/LogicMethods.java:625-634 | a clause without the pure literal's complement still holds once the pure literal is made true |
| DavisPutnam.PureKept | src/reasoning/LogicMethods.java:625-634 | reducing by a pure literal keeps a satisfiable input satisfiable |
| DavisPutnam.UnitStep | src/reasoning/LogicMethods.java:573-589 | a unit step keeps the procedure's invariant |
| DavisPutnam.PureStep | src/reasoning/LogicMethods.java:625-634 | a pure-literal step keeps the procedure's invariant |
| DavisPutnam.PureReducedSubset | src/reasoning/LogicMethods.java:634 | reducing by a pure literal only removes clauses |
| DavisPutnam.UnitsSurvive | src/reasoning/LogicMethods.java:571-595 | later unit clauses of the iteration stay in the working set (or the empty clause appears) |
| DavisPutnam.PropagateUnits | src/reasoning/LogicMethods.java:570-596 | propagation keeps the invariant and ends with no unit clause left or the empty clause present |
| DavisPutnam.AssignPure | src/reasoning/LogicMethods.java:606-640 | the pure-literal pass keeps the invariant, keeps an empty clause and only removes clauses |
| DavisPutnam.EmptyClauseUnsatisfiable | src/reasoning/LogicMethods.java:713-715 | a set holding the empty clause is unsatisfiable, so returning null is justified |
| DavisPutnam.FoundModel | src/reasoning/LogicMethods.java:721-729 | a sound partial model for an emptied set, completed in any way, satisfies the input |
| DavisPutnam.CompleteModel | src/reasoning/LogicMethods.java:721-727 | every atom gets an entry; old entries keep their values and new ones are true |
| DavisPutnam.DavisPutnam | src/reasoning/LogicMethods.java:555-731 | a found model has exactly the input's atoms as keys and satisfies the input; null only for an unsatisfiable input; otherwise a split is needed on a non-empty, undecided remainder |
| FindClauses.Next | src/reasoning/LogicMethods.java:403-455 | the scanner's step: a literal read from the text, or a connective; the position advances except at an arrow |
| FindClauses.FoundLiteralAt | src/reasoning/LogicMethods.java:424-438 | a matched name is a literal of the text, negated iff a '-' precedes it |
| FindClauses.TokensLiterals | src/reasoning/LogicMethods.java:424-438 | every literal token comes from the text |
| FindClauses.TokensNoUpper | src/reasoning/LogicMethods.java:403-455 | text without capitals yields no literal token |
| FindClauses.SegmentsSnoc | src/reasoning/LogicMethods.java:437-449 | a literal joins the current clause, '&' opens a new one and '\|' does nothing |
| FindClauses.LiteralStep | src/reasoning/LogicMethods.java:437-438 | a literal is added to the current clause only |
| FindClauses.BarStep | src/reasoning/LogicMethods.java:444-445 | '\|' changes neither the closed clauses nor the current one |
| FindClauses.Advance | src/reasoning/LogicMethods.java:403-455 | the tokens consumed so far plus the rest from the new position are all the tokens |
| FindClauses.AmpStep | src/reasoning/LogicMethods.java:446-449 | '&' closes the current clause and starts an empty one |
| FindClauses.ClosedAndCurrent | src/reasoning/LogicMethods.java:446-457 | the closed clauses plus the last one are the set of segments |
| FindClauses.FindClauses | src/reasoning/LogicMethods.java:392-461 | the loop computes the clause set of the token sequence, or diverges at an arrow |
| FindClauses.StopStays | src/reasoning/LogicMethods.java:452-454 | with nothing left to match the scan ends |
| FindClauses.ArrowStalls | src/reasoning/LogicMethods.java:440-450 | at an arrow the position stays put and the same step repeats forever |
| FindClauses.SegmentsLiterals | src/reasoning/LogicMethods.java:424-457 | a literal is in some clause iff it was scanned |
| FindClauses.SegmentsCount | src/reasoning/LogicMethods.java:446-457 | there is one clause more than there are '&' tokens |
| FindClauses.SegmentsEmpty | src/reasoning/LogicMethods.java:446-457 | without literal tokens every clause is empty |
| FindClauses.ClauseLiteralsFromInput | src/reasoning/LogicMethods.java:424-438 | every literal of every clause is read from the text |
| FindClauses.NoLiteralOneEmptyClause | src/reasoning/LogicMethods.java:456-459 | text with no literal yields {{}} (or diverges at an arrow) |
| ExpressionParser.NegateTimes | src/reasoning/ExpressionParser.java:244-253 | k negations add k to the count and keep everything else |
| ExpressionParser.CloseAfter | src/reasoning/ExpressionParser.java:174-195 | the nesting counter finds a position after a ')' that closes the bracket |
| ExpressionParser.Group | src/reasoning/ExpressionParser.java:172-216 | a bracket group moves the position forward |
| ExpressionParser.Separator | src/reasoning/ExpressionParser.java:140-144 | the first ',' or '}' at or after a position |
| ExpressionParser.Premise | src/reasoning/ExpressionParser.java:138-155 | reading a premise moves the position forward |
| ExpressionParser.NegateDashes | src/reasoning/ExpressionParser.java:200-208 | the loop negates once per consecutive '-' before the position |
| ExpressionParser.ParseGroup | src/reasoning/ExpressionParser.java:172-216 | the bracket loop computes the group's reference result |
| ExpressionParser.ParsePlain | src/reasoning/ExpressionParser.java:161-273 | the main loop computes the reference parse |
| ExpressionParser.ReadConclusion | src/reasoning/ExpressionParser.java:118-136 | the conclusion is parsed, negated when asked, and conjoined with the premises |
| ExpressionParser.ReadPremise | src/reasoning/ExpressionParser.java:138-155 | a premise is parsed and conjoined with the earlier ones |
| ExpressionParser.ParseWithPremises | src/reasoning/ExpressionParser.java:107-157 | the sequent loop computes the reference sequent parse |
| ExpressionParser.ParseExpression | src/reasoning/ExpressionParser.java:101-274 | with conc set, the sequent parse; otherwise the plain parse |
| ExpressionParser.CombineWellFormed | src/reasoning/LogicMethods.java:79-124 | combine keeps well-formedness |
| ExpressionParser.ConnectiveRead | src/reasoning/ExpressionParser.java:263-266 | a connective token is never read as NOT |
| ExpressionParser.ParseWellFormed | src/reasoning/ExpressionParser.java:161-273 | a parsed formula is well formed |
| ExpressionParser.GroupWellFormed | src/reasoning/ExpressionParser.java:172-216 | a parsed group is well formed |
| ExpressionParser.JoinGroupSound | src/reasoning/ExpressionParser.java:210-214 | joining a group keeps the parse state well formed |
| ExpressionParser.JoinAtom | src/reasoning/ExpressionParser.java:255-259 | with no connective read, the atom itself; with a connective, a construction under that connective ending in the atom; NullPointer exactly when a connective comes with no running expression, which for a leading arrow is the admitted NullPointer listed under Left out |
| ExpressionParser.JoinAtomSound | src/reasoning/ExpressionParser.java:255-259 | joining an atom keeps the parse state well formed |
| ExpressionParser.ParseFromWellFormed | src/reasoning/ExpressionParser.java:166-273 | from a well-formed state, the loop ends with a well-formed formula |
| ExpressionParser.ParseNoAtom | src/reasoning/ExpressionParser.java:161-273 | input with no atom name parses to null |
| ExpressionParser.GroupNoAtom | src/reasoning/ExpressionParser.java:172-216 | a group with no atom name parses to null |
| ExpressionParser.ParseFromNoAtom | src/reasoning/ExpressionParser.java:166-273 | with no atom name the loop keeps a null expression |
| ExpressionParser.ParseFromEnd | src/reasoning/ExpressionParser.java:166-273 | at the end of the input the last expression is returned |
| ExpressionParser.GroupStep | src/reasoning/ExpressionParser.java:172-216 | a group is read whole and joined, and parsing continues after it |
| ExpressionParser.SkipStep | src/reasoning/ExpressionParser.java:168-171 | spaces and '-' not followed by '>' are skipped |
| ExpressionParser.AtomStep | src/reasoning/ExpressionParser.java:241-261 | an atom is negated per preceding dash and joined with the last connective |
| ExpressionParser.ConnectiveStep | src/reasoning/ExpressionParser.java:263-266 | a connective token becomes the last connective |
| ExpressionParser.ParseNegatedAtom | src/reasoning/ExpressionParser.java:241-253 | "--A1" parses to A1 with two negations |
| ExpressionParser.NegatedAtomName | src/reasoning/ExpressionParser.java:241-253 | from position 2 of "--A1", the two dashes before the name negate it twice |
| ExpressionParser.ParseLeftToRight | src/reasoning/ExpressionParser.java:241-266 | "A&B\|C" folds left to right into (A & B) \| C |
| ExpressionParser.LeftToRightFirst | src/reasoning/ExpressionParser.java:241-261 | the first atom of "A&B\|C" becomes the last expression |
| ExpressionParser.LeftToRightAmp | src/reasoning/ExpressionParser.java:263-266 | the '&' becomes the last connective |
| ExpressionParser.LeftToRightSecond | src/reasoning/ExpressionParser.java:255-259 | B is joined with A under AND |
| ExpressionParser.LeftToRightBar | src/reasoning/ExpressionParser.java:263-266 | the '\|' replaces the last connective |
| ExpressionParser.LeftToRightLast | src/reasoning/ExpressionParser.java:255-273 | C is joined with A & B under OR and returned |
| ExpressionParser.ParseDisjunction | src/reasoning/ExpressionParser.java:241-266 | "A\|B" parses to OR[A, B] |
| ExpressionParser.DisjunctionFirst | src/reasoning/ExpressionParser.java:241-261 | the first atom of "A\|B" becomes the last expression |
| ExpressionParser.DisjunctionBar | src/reasoning/ExpressionParser.java:263-266 | the '\|' becomes the last connective |
| ExpressionParser.DisjunctionLast | src/reasoning/ExpressionParser.java:255-273 | B is joined with A under OR and returned |
| ExpressionParser.NegatedGroupBody | src/reasoning/ExpressionParser.java:172-208 | the group of "-(A\|B)" is OR[A, B] negated once |
| ExpressionParser.ParseNegatedGroup | src/reasoning/ExpressionParser.java:172-216 | "-(A\|B)" parses to OR[A, B] negated once |
| ExpressionParser.NegatedGroupStep | src/reasoning/ExpressionParser.java:200-214 | from inside "-(A\|B)", the group is read, negated by the preceding dash and returned |
| ExpressionParser.ParseOutOfBounds | src/reasoning/ExpressionParser.java:168-195 | a trailing '-' and an unclosed '(' throw IndexOutOfBounds |
| ExpressionParser.ParseNullOperand | src/reasoning/ExpressionParser.java:197-256 | a leading '&' and an empty negated group throw NullPointer |
| ExpressionParser.ParseOneLetter | src/reasoning/ExpressionParser.java:241-261 | a single capital parses to that atom |
| ExpressionParser.ParseConcExample | src/reasoning/ExpressionParser.java:107-157 | "{A}:B" with negate set gives A & ¬B |
| ExpressionParser.PremiseExample | src/reasoning/ExpressionParser.java:138-155 | the premise A of "{A}:B" is read and the position moves past '}' |
| ExpressionParser.ConclusionExample | src/reasoning/ExpressionParser.java:118-136 | the negated conclusion ¬B is conjoined with the premise A |
| ExpressionParser.DimacsLiteral | src/reasoning/ExpressionParser.java:299-320 | a digit d becomes the shared atom "Xd", negated at most once |
| ExpressionParser.ConvertDimacs | src/reasoning/ExpressionParser.java:282-330 | the loop computes the reference DIMACS reading |
| ExpressionParser.DimacsFails | src/reasoning/ExpressionParser.java:299-301 | NumberFormat exactly when some character is not an ASCII digit, space or '-' |
| ExpressionParser.DimacsLiterals | src/reasoning/ExpressionParser.java:299-320 | every literal is read from a digit of the input, negated iff a '-' precedes it |
| ExpressionParser.DimacsNoZero | src/reasoning/ExpressionParser.java:295-298 | without a '0' no clause is closed, so literals are dropped |
| ExpressionParser.DimacsTwoDigits | src/reasoning/ExpressionParser.java:295-301 | "10 0" reads X1 and then the '0' of "10" closes a clause |
| ExpressionParser.DimacsNegatedAndDropped | src/reasoning/ExpressionParser.java:293-328 | "-1 0 2" gives {{¬X1}}: X2 after the last '0' is dropped |
| BinaryTerminal.ToString | src/reasoning2/Terminal.java:6-21 | tokens are non-empty; only NOT's starts with '¬'; exactly AND and OR have a doubled two-character token |
| BinaryTerminal.FromString | src/reasoning2/Terminal.java:23-38 | a read AND/OR comes from a one-character string other than "¬" |
| BinaryTerminal.FromStringToString | src/reasoning2/Terminal.java:6-38 | reading a token gives back NOT, IMPLICATION and EQUIVALENCE, and null for AND and OR |
| BinaryTerminal.FromStringNull | src/reasoning2/Terminal.java:23-38 | null exactly for strings other than "¬", "&", "\|", "->", "<->" |
| BinaryTerminal.ToStringInjective | src/reasoning2/Terminal.java:6-21 | distinct connectives have distinct tokens |
| BinaryExpression.GetType | src/reasoning2/LogicExpression.java:5-12 | ATOM exactly for atoms |
| BinaryExpression.GetName | src/reasoning2/LogicExpression.java:14-19 | an atom's name; null exactly for constructions |
| BinaryExpression.GetLeft | src/reasoning2/LogicExpression.java:21-26 | a construction's left operand; null exactly for atoms |
| BinaryExpression.GetRight | src/reasoning2/LogicExpression.java:28-33 | a construction's right operand; null exactly for atoms |
| BinaryExpression.GetTerminal | src/reasoning2/LogicExpression.java:35-40 | a construction's connective; null exactly for atoms |
| BinaryExpression.Join3 | src/reasoning2/Construction.java:23-28 | the three-argument constructor stores the operands and connective with count 0 |
| BinaryExpression.NewAtom | src/reasoning2/Atom.java:19-22 | the one-argument constructor gives an atom with count 0 |
| BinaryExpression.Depth | src/reasoning2/Construction.java:78-96 | depth is 0 exactly for atoms |
| BinaryExpression.DepthOne | src/reasoning2/Construction.java:78-96 | a construction has depth 1 iff below it are only atoms and nodes of its own connective, so (A ∨ B) ∨ C has depth 1 |
| BinaryExpression.Equals | src/reasoning2/Construction.java:114-127 | equals holds iff the two expressions are the same value |
| BinaryExpression.Wrap | src/reasoning2/Construction.java:109-111 | Java int arithmetic: the value in the 32-bit range congruent to the input |
| BinaryExpression.WrapCongruent | src/reasoning2/Construction.java:109-111 | inputs congruent modulo 2^32 wrap to the same int |
| BinaryExpression.Hash | src/reasoning2/Construction.java:109-111 | the hash is a 32-bit int |
| BinaryExpression.HashAgreesWithEquals | src/reasoning2/Construction.java:109-127 | equal expressions have equal hashes |
| BinaryExpression.HashSwap | src/reasoning2/Construction.java:109-111 | swapping the operands keeps the hash |
| BinaryExpression.HashNegated | src/reasoning2/Construction.java:109-111 | one more negation adds one to the hash, with wrap-around |
| BinaryExpression.Body | src/reasoning2/Construction.java:45-55 | an atom's body is its name; a construction's is bracketed |
| BinaryExpression.ShowSucc | src/reasoning2/Atom.java:35-45 | one more negation writes one more mark in front |
| BinaryExpression.ToString | src/reasoning2/Atom.java:35-45 | an un-negated atom renders as its name; each negation writes its mark in front of the rendering with one fewer, the two characters "Â¬" for an atom and "¬" for a construction (src/reasoning2/Construction.java:45-55) |
| BinaryExpression.ShowNegated | src/reasoning2/Construction.java:45-55 | with the intended mark, negating anything prepends "¬" |
| BinaryExpression.ShowNegatedConstruction | src/reasoning2/Construction.java:45-55 | negating a construction prepends "¬" to its rendering |
| BinaryExpression.AtomRenderingStart | src/reasoning2/Atom.java:35-45 | an atom's rendering never starts with '¬' |
| BinaryLogicMethods.Negate | src/reasoning2/LogicMethods.java:30-43 | the count goes up by one; type, name, operands and connective kept |
| BinaryLogicMethods.Combine | src/reasoning2/LogicMethods.java:55-138 | conj, disj, implies, equivalent and combine: a fresh un-negated node; null for NOT |
| BinaryLogicMethods.Dne | src/reasoning2/LogicMethods.java:148-167 | an even count drops by 2, odd counts are kept |
| BinaryLogicMethods.CommConj | src/reasoning2/LogicMethods.java:177-180 | L ∧ R becomes R ∧ L |
| BinaryLogicMethods.AssocConj | src/reasoning2/LogicMethods.java:190-195 | L ∧ (R1 ∧ R2) becomes (L ∧ R1) ∧ R2 |
| BinaryLogicMethods.DistConj | src/reasoning2/LogicMethods.java:205-209 | L ∧ (R1 ∨ R2) becomes (L ∧ R1) ∨ (L ∧ R2) |
| BinaryLogicMethods.CommDisj | src/reasoning2/LogicMethods.java:219-222 | L ∨ R becomes R ∨ L |
| BinaryLogicMethods.AssocDisj | src/reasoning2/LogicMethods.java:232-237 | L ∨ (R1 ∨ R2) becomes (L ∨ R1) ∨ R2 |
| BinaryLogicMethods.AssocDisjRev | src/reasoning2/LogicMethods.java:247-250 | (L1 ∨ L2) ∨ R becomes L1 ∨ (L2 ∨ R) |
| BinaryLogicMethods.DistDisj | src/reasoning2/LogicMethods.java:260-264 | L ∨ (R1 ∧ R2) becomes (L ∨ R1) ∧ (L ∨ R2) |
| BinaryLogicMethods.DeMorgans | src/reasoning2/LogicMethods.java:274-285 | AND becomes OR of the negated operands and vice versa; other connectives kept |
| BinaryLogicMethods.RewriteImplication | src/reasoning2/LogicMethods.java:295-299 | L -> R becomes ¬L ∨ R with the node's count |
| BinaryLogicMethods.RewriteEquivalence | src/reasoning2/LogicMethods.java:309-313 | L <-> R becomes (L -> R) ∧ (R -> L) with the node's count |
| BinaryLogicMethods.IsNegated | src/reasoning2/LogicMethods.java:325-332 | the string test never holds between an expression and itself |
| BinaryLogicMethods.NegatedConstructionIsNegated | src/reasoning2/LogicMethods.java:325-332 | a negated construction passes the string test against the construction |
| BinaryLogicMethods.AtomsNeverNegated | src/reasoning2/LogicMethods.java:325-332 | as written, two atoms never pass the string test |
| BinaryLogicMethods.NegatedIsNegatedCorrected | src/reasoning2/LogicMethods.java:325-332 | with the intended atom mark, anything negated passes the test against itself |
| BinaryLogicMethods.AtomsNegatedCorrected | src/reasoning2/LogicMethods.java:325-332 | with the intended mark, atoms pass iff same name and counts one apart |
| BinaryLogicMethods.NegateValue | src/reasoning2/LogicMethods.java:30-43 | negation flips the value |
| BinaryLogicMethods.CombineValue | src/reasoning2/LogicMethods.java:123-138 | the combined node means the connective applied to the operands |
| BinaryLogicMethods.DneValue | src/reasoning2/LogicMethods.java:148-167 | dne preserves the value |
| BinaryLogicMethods.CommValue | src/reasoning2/LogicMethods.java:177-222 | commuting an un-negated AND/OR preserves the value |
| BinaryLogicMethods.AssocValue | src/reasoning2/LogicMethods.java:190-237 | re-association of plain AND/OR chains preserves the value |
| BinaryLogicMethods.AssocDisjRevValue | src/reasoning2/LogicMethods.java:247-250 | the reverse re-association preserves the value |
| BinaryLogicMethods.DistValue | src/reasoning2/LogicMethods.java:205-264 | distConj over an OR and distDisj over an AND preserve the value |
| BinaryLogicMethods.DeMorgansValue | src/reasoning2/LogicMethods.java:274-285 | on a once-negated AND/OR, De Morgan preserves the value |
| BinaryLogicMethods.ImplicationValue | src/reasoning2/LogicMethods.java:295-299 | the implication rewrite preserves the value |
| BinaryLogicMethods.EquivalenceValue | src/reasoning2/LogicMethods.java:309-313 | the equivalence rewrite preserves the value |
| BinaryRendering.PeelShow | src/reasoning2/Atom.java:35-45 | a rendering is one mark followed by the rendering with one negation fewer |
| BinaryRendering.FirstChar | src/reasoning2/Construction.java:45-55 | a rendering starts with the mark, a capital (atom) or '(' (construction) |
| BinaryRendering.TokenFirst | src/reasoning2/Terminal.java:6-21 | connective tokens differ already in their first character |
| BinaryRendering.ShowConstruction | src/reasoning2/Construction.java:45-55 | an un-negated construction renders as "(left op right)" |
| BinaryRendering.ShowInjective | src/reasoning2/Construction.java:45-55 | equal renderings, with any allowed continuation, come from equal expressions |
| BinaryRendering.PeelInjective | src/reasoning2/Atom.java:35-45 | two negated expressions whose renderings, each followed by an allowed continuation, are equal are themselves equal, as are the continuations |
| BinaryRendering.ConstructionInjective | src/reasoning2/Construction.java:45-55 | two constructions whose renderings, each followed by an allowed continuation, are equal are themselves equal, as are the continuations |
| BinaryRendering.RenderingInjective | src/reasoning2/Construction.java:45-55 | on well-named expressions, equal renderings iff equal expressions |
| BinaryRendering.NegatedRendering | src/reasoning2/LogicMethods.java:325-332 | passing the string test means being one negation apart; as written, the negated side is a construction |
| BinaryRendering.ConstantRendering | src/reasoning2/LogicMethods.java:581-618 | a rendering is "T" / "FALSE" exactly for the TRUE / FALSE atoms |
| BinaryRendering.ConstantsWellNamed | src/reasoning2/LogicMethods.java:19-20 | T and FALSE are atoms with names the parser reads, rendered as those names |
| BinarySimplify.Shuffle | src/reasoning2/LogicMethods.java:449-504 | shuffleExpression as written: only the top node can give null; a null operand below it throws NullPointer where the rebuilt construction is printed (lines 482, 498); a construction stays a construction |
| BinarySimplify.NullOperandThrows | src/reasoning2/LogicMethods.java:495-502 | ((A ∧ B) → C) ∧ D throws NullPointer, while the arrow alone gives null |
| BinarySimplify.OperandsBelowDepthOne | src/reasoning2/LogicMethods.java:469-488 | past depth 1, some operand is a construction |
| BinarySimplify.ShuffleCorrected | src/reasoning2/LogicMethods.java:449-504 | the intended shuffle, distributing only over a conjunction |
| BinarySimplify.ShuffleDefined | src/reasoning2/LogicMethods.java:449-504 | on arrow-free input, neither shuffle returns null and the source's shuffle does not throw |
| BinarySimplify.ShuffleShape | src/reasoning2/LogicMethods.java:449-504 | as written, shuffle neither throws nor returns null on negation normal form, and keeps that form and the names |
| BinarySimplify.ShuffleCorrectedValue | src/reasoning2/LogicMethods.java:449-504 | the intended shuffle preserves the value, the normal form and the names |
| BinarySimplify.DistributesOverDisjunction | src/reasoning2/LogicMethods.java:469-488 | (A ∧ B) ∨ (C ∨ D) is distributed as if C ∨ D were a conjunction, changing its value |
| BinarySimplify.SimplifyDisj | src/reasoning2/LogicMethods.java:541-563 | X ∨ X becomes X and X ∨ ¬X becomes TRUE; structure stays proper |
| BinarySimplify.NegatedPair | src/reasoning2/LogicMethods.java:551-553 | two renderings one '¬' apart are one negation apart |
| BinarySimplify.SimplifyDisjValue | src/reasoning2/LogicMethods.java:541-563 | with TRUE read as true, simplifyDisj preserves the value |
| BinarySimplify.ConjKept | src/reasoning2/LogicMethods.java:579-587 | T ∧ X, X ∧ T and X ∧ X keep one operand |
| BinarySimplify.Rejoin | src/reasoning2/LogicMethods.java:594 | combining two simplified operands fails iff one of them failed |
| BinarySimplify.SimplifyConj | src/reasoning2/LogicMethods.java:573-595 | simplifyConj as written, throwing where an operand kept is an atom |
| BinarySimplify.SimplifyConjCorrected | src/reasoning2/LogicMethods.java:573-595 | the intended simplifyConj, returning a kept atom as it is |
| BinarySimplify.SimplifyConjAgrees | src/reasoning2/LogicMethods.java:573-595 | when the written version does not throw it equals the intended one |
| BinarySimplify.KeptValue | src/reasoning2/LogicMethods.java:579-587 | keeping one operand of such a conjunction preserves the value |
| BinarySimplify.ConjOfEqualAtomsThrows | src/reasoning2/LogicMethods.java:585-594 | A ∧ A throws NullPointer as written and gives A as intended |
| BinarySimplify.SimplifyConjCorrectedValue | src/reasoning2/LogicMethods.java:573-595 | with TRUE true and FALSE false, the intended simplifyConj preserves the value |
| BinarySimplify.SimplifyFalsehoods | src/reasoning2/LogicMethods.java:605-624 | simplifyFalsehoods as written |
| BinarySimplify.SimplifyFalsehoodsCorrected | src/reasoning2/LogicMethods.java:605-624 | the intended pass: FALSE dropped from either side of an OR only |
| BinarySimplify.SimplifyFalsehoodsCorrectedValue | src/reasoning2/LogicMethods.java:605-624 | with FALSE false, the intended pass preserves the value |
| BinarySimplify.FalsehoodsFindings | src/reasoning2/LogicMethods.java:611-623 | FALSE ∨ A throws NullPointer, and FALSE ∨ ((B ∨ C) ∧ FALSE) becomes B ∨ C, changing the value |
| BinaryNormalForm.Settled | src/reasoning2/LogicMethods.java:390-394 | the dne loop settles a count to 0 or 1 of the same parity, and loops forever exactly on odd counts of 3 or more |
| BinaryNormalForm.SettledValue | src/reasoning2/LogicMethods.java:390-394 | settling preserves the value |
| BinaryNormalForm.Unarrow | src/reasoning2/LogicMethods.java:428-434 | implication and equivalence are rewritten with the node's count; other nodes are kept |
| BinaryNormalForm.UnarrowValue | src/reasoning2/LogicMethods.java:428-434 | the arrow rewrite preserves the value |
| BinaryNormalForm.ResolveArrows | src/reasoning2/LogicMethods.java:416-439 | the loop and recursion compute the reference result, divergence included |
| BinaryNormalForm.ResolvedValue | src/reasoning2/LogicMethods.java:416-439 | when it ends, resolveArrows preserves the value |
| BinaryNormalForm.ResolvedShape | src/reasoning2/LogicMethods.java:416-439 | when it ends, no arrow is left and every count is at most 1 |
| BinaryNormalForm.ResolvedNames | src/reasoning2/LogicMethods.java:416-439 | resolveArrows keeps atom names |
| BinaryNormalForm.ResolvedSplit | src/reasoning2/LogicMethods.java:424-437 | a construction ends iff both rewritten operands end |
| BinaryNormalForm.ResolvedHalts | src/reasoning2/LogicMethods.java:416-439 | resolveArrows ends iff no visited node settles to an odd count ≥ 3 |
| BinaryNormalForm.ImplicationHalts | src/reasoning2/LogicMethods.java:428-437 | an implication ends iff its negated left operand and its right operand do |
| BinaryNormalForm.PlainHalts | src/reasoning2/LogicMethods.java:436-437 | an ordinary node's operands end iff they are tame |
| BinaryNormalForm.EquivalenceHalts | src/reasoning2/LogicMethods.java:432-437 | an equivalence ends iff both operands, plain and negated, do |
| BinaryNormalForm.TripleNegationDiverges | src/reasoning2/LogicMethods.java:418-422 | an atom negated three times loops forever |
| BinaryNormalForm.NegatedPremiseDiverges | src/reasoning2/LogicMethods.java:428-437 | --A -> B loops forever, since rewriting gives ---A |
| BinaryNormalForm.PerformDeMorgans | src/reasoning2/LogicMethods.java:388-406 | the loop and recursion compute the reference result |
| BinaryNormalForm.DeMorganedValue | src/reasoning2/LogicMethods.java:388-406 | when it ends, performDeMorgans preserves the value |
| BinaryNormalForm.DeMorganedNnf | src/reasoning2/LogicMethods.java:388-406 | on arrow-free input the result is in negation normal form |
| BinaryNormalForm.DeMorganedNames | src/reasoning2/LogicMethods.java:388-406 | performDeMorgans keeps atom names |
| BinaryNormalForm.DeMorganedHalts | src/reasoning2/LogicMethods.java:388-406 | with every count at most 1, performDeMorgans ends, also on the negation |
| BinaryNormalForm.DeMorganTripleNegationDiverges | src/reasoning2/LogicMethods.java:390-394 | performDeMorgans loops forever on an atom negated three times |
| BinaryClauses.SkipClosers | src/reasoning2/LogicMethods.java:667-669 | the first position from j holding neither ')' nor ' ' |
| BinaryClauses.StepAt | src/reasoning2/LogicMethods.java:645-680 | a step exists exactly when the next name does not start the text; it moves forward |
| BinaryClauses.FirstStep | src/reasoning2/LogicMethods.java:645-680 | the first step over "((A \|\| Â¬B) && C)" reads A and no '&' |
| BinaryClauses.SecondStep | src/reasoning2/LogicMethods.java:645-680 | the second step reads ¬B, negated by the preceding '¬', and meets the '&' |
| BinaryClauses.ThirdStep | src/reasoning2/LogicMethods.java:645-680 | the third step reads C and no '&' |
| BinaryClauses.FormClauses | src/reasoning2/LogicMethods.java:634-687 | formClauses scans the expression's rendering |
| BinaryClauses.ScanRendering | src/reasoning2/LogicMethods.java:636-685 | the loop computes the reference scan of a rendering |
| BinaryClauses.ReadStep | src/reasoning2/LogicMethods.java:647-679 | one pass of the loop body computes the reference step |
| BinaryClauses.StepShape | src/reasoning2/LogicMethods.java:647-679 | the step reads the name, negated iff '¬' precedes it, skips closers and closes the clause at '&' |
| BinaryClauses.ScanUnfold | src/reasoning2/LogicMethods.java:658-680 | '&' closes the clause with the literal; otherwise the literal joins the current clause |
| BinaryClauses.ScanOk | src/reasoning2/LogicMethods.java:645-685 | after the first position the scan never throws |
| BinaryClauses.FormFromThrows | src/reasoning2/LogicMethods.java:658 | the scan throws exactly when the text starts with a capital |
| BinaryClauses.AtomThrows | src/reasoning2/LogicMethods.java:634-660 | formClauses on a lone un-negated atom throws |
| BinaryClauses.StepRead | src/reasoning2/LogicMethods.java:658-662 | a step's literal is read from the text |
| BinaryClauses.ScanLiterals | src/reasoning2/LogicMethods.java:645-685 | every literal of the result is read from the text |
| BinaryClauses.FormFromLiterals | src/reasoning2/LogicMethods.java:634-687 | every literal formClauses returns is read from the rendering |
| BinaryClauses.ReadsTwoClauses | src/reasoning2/LogicMethods.java:634-687 | "((A \|\| Â¬B) && C)" gives {{A, ¬B}, {C}} |
| BinaryClauses.ReadsFirstClause | src/reasoning2/LogicMethods.java:634-687 | the scan reads A, then ¬B, and closes {A, ¬B} at the '&' |
| BinaryClauses.ReadsSecondLiteral | src/reasoning2/LogicMethods.java:634-687 | with A read, ¬B joins the clause and the '&' closes it |
| BinaryClauses.ReadsLastClause | src/reasoning2/LogicMethods.java:634-687 | after the '&', C is read and the last clause {C} is always added |
| BinaryClauses.Transform | src/reasoning2/LogicMethods.java:342-377 | the pipeline method computes the staged reference result |
| BinaryClauses.TransformHalts | src/reasoning2/LogicMethods.java:342-377 | transform ends exactly on the inputs resolveArrows ends on |
| BinaryClauses.TransformAtomThrows | src/reasoning2/LogicMethods.java:342-377 | transform of a lone atom throws IndexOutOfBounds |
| BinaryClauses.CorrectedStagesHalt | src/reasoning2/LogicMethods.java:342-377 | the intended stages end exactly when the written ones do |
| BinaryClauses.CorrectedStagesValue | src/reasoning2/LogicMethods.java:342-377 | the intended stages preserve the value and give negation normal form |
| BinaryDavisPutnam.Trimmed | src/reasoning2/LogicMethods.java:860-868 | the clause without the literals the string test pairs with the unit |
| BinaryDavisPutnam.ReducedAsWritten | src/reasoning2/LogicMethods.java:851-878 | clauses holding the unit are dropped, the rest trimmed |
| BinaryDavisPutnam.ReduceCnf | src/reasoning2/LogicMethods.java:851-878 | the loop builds exactly that set |
| BinaryDavisPutnam.AtomOpens | src/reasoning2/Atom.java:35-45 | a scanned atom's rendering never starts with '¬' |
| BinaryDavisPutnam.LiteralsNeverNegated | src/reasoning2/LogicMethods.java:325-332 | two scanned literals never pass the string test |
| BinaryDavisPutnam.ReducedAsWrittenOnlyDrops | src/reasoning2/LogicMethods.java:851-878 | as written, reduction only drops the clauses holding the unit |
| BinaryDavisPutnam.CorrectedTestComplements | src/reasoning2/LogicMethods.java:325-332 | the intended test on literals is the complement relation |
| BinaryDavisPutnam.UnitComplementKept | src/reasoning2/LogicMethods.java:851-878 | reducing {¬A} by A keeps it as written; intended, it leaves the empty clause |
| BinaryDavisPutnam.UnitModel | src/reasoning2/LogicMethods.java:784-800 | one entry per unit clause's literal, true iff it is not negated once |
| BinaryDavisPutnam.DavisPutnam | src/reasoning2/LogicMethods.java:775-837 | the result is never null and is the unit model of the input |
| BinaryDavisPutnam.UnitModelForced | src/reasoning2/LogicMethods.java:784-800 | any satisfying assignment agrees with every entry |
| BinaryDavisPutnam.ContradictionStillModelled | src/reasoning2/LogicMethods.java:775-837 | {A}, {¬A} is unsatisfiable yet gets a model, A true and ¬A false |
| BinaryLogicModel.LogicModel.constructor | src/reasoning2/LogicModel.java:21-23 | a new model is empty |
| BinaryLogicModel.LogicModel.AddAtom | src/reasoning2/LogicModel.java:53-55 | the literal itself, negations included, maps to the polarity; nothing else changes |
| BinaryLogicModel.LogicModel.ToString | src/reasoning2/LogicModel.java:25-42 | entry texts joined by ", "; IndexOutOfBounds exactly for an empty model |
| BinaryProofLine.GetMain | src/reasoning2/ProofLine.java:44-46 | the line's clause |
| BinaryProofLine.Spaces | src/reasoning2/ProofLine.java:29-35 | 20 minus the length spaces, or none from 20 characters on |
| BinaryProofLine.ToString | src/reasoning2/ProofLine.java:27-37 | the rendering, the padding, then the operation, which starts at max(20, rendering length) |
| BinaryResolution.ChooseNegated | src/reasoning2/LogicMethods.java:728-743 | a pair passing the string test, or none exactly when no pair does |
| BinaryResolution.Merged | src/reasoning2/LogicMethods.java:745-750 | the picked literals removed from the union, or the whole union when none was picked |
| BinaryResolution.AtomLength | src/reasoning2/Atom.java:35-45 | an atom's rendering has 2k + name-length characters |
| BinaryResolution.SameNameNeverCancels | src/reasoning2/LogicMethods.java:325-332 | two literals of the same name never pass the string test |
| BinaryResolution.MergedNonEmpty | src/reasoning2/LogicMethods.java:745-758 | what a round leaves of a complementary pair is never empty |
| BinaryResolution.ResolvePairAsWritten | src/reasoning2/LogicMethods.java:715-756 | one round: the merged clause, never empty, added to the store and logged only when new; logged as "Res i, j" with the parents' first line numbers when a pair was picked, with no provenance otherwise |
| BinaryResolution.RecordVerdict | src/reasoning2/LogicMethods.java:758-761 | UNSATISFIABLE is set iff the new clause is empty |
| BinaryResolution.ResolveUntilDone | src/reasoning2/LogicMethods.java:710-769 | the loop ends SATISFIABLE with no unresolved pair left and no new empty clause |
| BinaryResolution.ResolutionProof | src/reasoning2/LogicMethods.java:697-773 | always SATISFIABLE, with the store saturated, grown only within its literals, and listed by the lines |
| BinaryResolution.UnitsReportedSatisfiable | src/reasoning2/LogicMethods.java:697-773 | {A}, {¬A} is unsatisfiable and resolves to the empty clause as intended |
| BinaryExpressionParser.NegateTimes | src/reasoning2/ExpressionParser.java:99-106 | k negations add k to the count |
| BinaryExpressionParser.Group | src/reasoning2/ExpressionParser.java:72-115 | a bracket group moves the position forward |
| BinaryExpressionParser.AtomAt | src/reasoning2/ExpressionParser.java:140-152 | an atom with the matched name, negated once per preceding dash |
| BinaryExpressionParser.NegateDashes | src/reasoning2/ExpressionParser.java:99-106 | the loop negates once per preceding dash |
| BinaryExpressionParser.ParseGroup | src/reasoning2/ExpressionParser.java:72-115 | the bracket loop computes the group's reference result |
| BinaryExpressionParser.ParseExpression | src/reasoning2/ExpressionParser.java:54-174 | the main loop computes the reference parse |
| BinaryExpressionParser.ConnectiveRead | src/reasoning2/ExpressionParser.java:163-166 | a connective token is never read as NOT |
| BinaryExpressionParser.JoinGroupSound | src/reasoning2/ExpressionParser.java:109-113 | joining a group keeps the parse state proper and well named |
| BinaryExpressionParser.JoinAtom | src/reasoning2/ExpressionParser.java:154-158 | with no connective read, the atom itself; with a connective, the running expression and the atom as left and right operand under it, null for NOT; NullPointer exactly when a connective comes with no running expression, the admitted NullPointer listed under Left out |
| BinaryExpressionParser.JoinAtomSound | src/reasoning2/ExpressionParser.java:154-158 | joining an atom keeps the parse state proper and well named |
| BinaryExpressionParser.ParseParsed | src/reasoning2/ExpressionParser.java:54-174 | a parsed formula is proper and well named |
| BinaryExpressionParser.GroupParsed | src/reasoning2/ExpressionParser.java:72-115 | a parsed group is proper and well named |
| BinaryExpressionParser.ParseFromParsed | src/reasoning2/ExpressionParser.java:66-173 | from a sound state the loop ends with a proper, well-named formula |
| BinaryExpressionParser.ParseNoAtom | src/reasoning2/ExpressionParser.java:56-173 | input with no atom name parses to null |
| BinaryExpressionParser.GroupNoAtom | src/reasoning2/ExpressionParser.java:72-115 | a group with no atom name parses to null |
| BinaryExpressionParser.ParseFromNoAtom | src/reasoning2/ExpressionParser.java:66-173 | with no atom name the loop keeps a null expression |
| BinaryExpressionParser.AtomStep | src/reasoning2/ExpressionParser.java:140-161 | an atom is joined with the last connective and parsing continues after it |
| BinaryExpressionParser.ConnectiveStep | src/reasoning2/ExpressionParser.java:163-166 | a connective token becomes the last connective |
| BinaryExpressionParser.ParseLeftNested | src/reasoning2/ExpressionParser.java:140-166 | "A&B&C" folds left to right into ((A & B) & C) |
| BinaryExpressionParser.ChainFirst | src/reasoning2/ExpressionParser.java:140-161 | the first atom of "A&B&C" becomes the last expression |
| BinaryExpressionParser.ChainAmp | src/reasoning2/ExpressionParser.java:163-166 | each '&' becomes the last connective |
| BinaryExpressionParser.ChainSecond | src/reasoning2/ExpressionParser.java:154-158 | B is joined with A under AND |
| BinaryExpressionParser.ChainLast | src/reasoning2/ExpressionParser.java:154-173 | C is joined with A & B and the result returned |
| BinaryExpressionParser.OrFirst | src/reasoning2/ExpressionParser.java:140-166 | "A\|B" reads A and then the '\|' |
| BinaryExpressionParser.OrLast | src/reasoning2/ExpressionParser.java:154-173 | B is joined with A under OR and returned |
| BinaryExpressionParser.NegatedGroupBody | src/reasoning2/ExpressionParser.java:72-106 | the group of "-(A\|B)" is A ∨ B negated once |
| BinaryExpressionParser.ParseNegatedGroup | src/reasoning2/ExpressionParser.java:72-115 | "-(A\|B)" parses to A ∨ B negated once |
| BinaryExpressionParser.ParseNullOperand | src/reasoning2/ExpressionParser.java:97-158 | a leading connective and an empty negated group are reported as NullPointer at the join |

## Left out

- Both packages' `TheoremProver` are not part of this model. They hold argument parsing, console output, timing and process exit. Their one piece of logic inverts the resolution verdict for a negated input.
- `parseFile` and `parseDIMACS` (file reading) in both packages are not part of this model. Their text is the input of the modelled parsers.
- Debug printing gated on `TheoremProver.debug` is left out. It only renders values that are already computed.
- The unconditional printing in `reasoning2`'s `shuffleExpression` is left out as output. Its one effect on results is modelled: rendering a rebuilt construction whose shuffled operand is null throws (src/reasoning2/Construction.java:53), and `BinarySimplify.Shuffle` returns `Err(NullPointer)` there.
- Hash-set and hash-map iteration order is modelled as an arbitrary order: `Text.Elements` returns some enumeration, and the renderings take that enumeration as a ghost output. This covers which pair `findUnresolvedPair` returns, which literal pair is cancelled, and which unit is propagated first.
- Renderings of literals and clauses inside the n-ary `toString` methods are parameters. `reasoning/Atom`, `reasoning/Construction` and `reasoning/ProofLine` are not part of this model.
- The n-ary expression type is modelled through the `LogicExpression` interface. `LogicExpression.Depth`, `Size`, `AddToFront` and `AddToBack` follow that interface's documentation.
- Splitting in `reasoning`'s `davisPutnam` is left out. The source's loop repeats forever with an unchanged set when every split fails without the empty clause, it records the atom as true on the false branch, and it stops copying entries after the first.
- DavisPutnam.DavisPutnam: returns a `NeedsSplit` outcome, with the partial model and the undecided remainder, where the source would start splitting.
- DavisPutnam.DavisPutnam: model soundness and unsatisfiability are stated for inputs whose literals carry at most one negation, which is all `findClauses` and `convertDIMACS` produce.
- The distribution loop's header `i = i++` ends only through aliasing of the term list of the unshown Construction class. `LogicMethods.Distribute` models the loop as repeating one distribution step until one disjunct is left.
- LogicMethods.TransformAsWritten: states the as-written result's shape and its exact value on two families of inputs, not its full value on every input.
- `ensureInForm` in `reasoning2` is not part of this model. No modelled operation calls it.
- `generateClauseNormalForm` in `reasoning`, and the one its `reasoning2` caller expects, are not modelled. In `reasoning` it is `transform` followed by `findClauses` over the rendering. In `reasoning2` it is not defined.
- `reasoning2`'s own ClauseNormalForm, ResolutionProof and Result classes are not part of this model. Binary resolution runs over the n-ary `ClauseNormalForm` store and `ResolutionProof` record.
- `reasoning2`'s `ComplementingPair` is the same class as `reasoning`'s. Both are modelled by `ComplementingPair`.
- The pure-literal lists that `reasoning2`'s `davisPutnam` builds are never read afterwards, so they are left out.
- ExpressionParser.JoinAtom: an atom after a leading '->' or '<->' gives Err(NullPointer). The source's combine puts a null first term into a new construction there without dereferencing it, and fails only when that term is used later. Null terms are not modelled. `ExpressionParser.ParseGroup`, `ParsePlain` and `ParseExpression` inherit this.
- ExpressionParser.ConvertDimacs: input is taken as ASCII. Integer.parseInt also accepts a non-ASCII decimal digit, which the model reports as NumberFormat. Unicode digit tables are not modelled.
- ExpressionParser.DimacsFails: states failure for characters other than ASCII digits, spaces and '-', for the reason above.
- BinaryExpressionParser.JoinAtom: when an atom follows a connective with no left operand, the source builds a construction with a null left operand. That construction throws NullPointer only when it is later rendered. The model reports the NullPointer at the join.
- BinarySimplify.SimplifyDisj: requires `Proper` (no construction joined by NOT), which every expression the parsers and rewrites build satisfies.
- BinarySimplify.SimplifyConj: requires `Proper`, as above.
- BinarySimplify.SimplifyFalsehoods: requires `Proper`, as above.
- BinaryClauses.Transform: requires `Proper`, as above.
- TRUE and FALSE are the ordinary atoms "T" and "FALSE". Their values are stated as hypotheses (`v("T")`, `!v("FALSE")`) in the value lemmas.
- Java's 32-bit wrap-around is modelled only where the source relies on it, in `hashCode` (`BinaryExpression.Wrap`). Negation counts and line numbers are unbounded.

## Findings

| source | as written | input that shows it | evidently intended | confidence | as-written member | corrected member |
|---|---|---|---|---|---|---|
| src/reasoning2/Atom.java:39-41 | a negated atom is rendered with the two characters "Â¬", while `isNegated` prepends "¬", so no two atoms ever pass the test | A and ¬A, rendered "A" and "Â¬A" | a negated atom rendered with "¬", so that ¬A and A are mutually negated | high (not executed) | BinaryLogicMethods.AtomsNeverNegated | BinaryLogicMethods.AtomsNegatedCorrected |
| src/reasoning2/LogicMethods.java:851-878 | reduceCNF never deletes the unit's complement, since the test above never holds | unit A and clause set {{¬A}} | {{¬A}} reduced by A leaves the empty clause | high (not executed) | BinaryDavisPutnam.UnitComplementKept | Clauses.ReducedValue |
| src/reasoning2/LogicMethods.java:728-750 | binary resolution never cancels two literals, so it never derives the empty clause and always ends SATISFIABLE | {{A}, {¬A}} | A cancels ¬A, the empty clause is derived and the set is UNSATISFIABLE | high (not executed) | BinaryResolution.UnitsReportedSatisfiable | Resolution.ResolutionProof |
| src/reasoning2/LogicMethods.java:469-488 | shuffleExpression applies distDisj to a disjunction whatever the right operand's connective, treating an OR as if it were an AND | (A ∧ B) ∨ (C ∨ D) with only C true | distribute only over a conjunction | high (not executed) | BinarySimplify.DistributesOverDisjunction | BinarySimplify.ShuffleCorrectedValue |
| src/reasoning/LogicMethods.java:285-327 | transform applies dne only to even counts, and its AND/OR branches ignore the count, so an odd count of 3 or more on a construction is dropped | ---(A ∧ B) | reduce the count to its parity, then apply De Morgan | high (not executed) | LogicMethods.DroppedNegationsFlipValue | LogicMethods.Transform |
| src/reasoning/LogicMethods.java:354-360 | the distribution loop takes getTerms() of each disjunct, which is null for an atom, so the loop throws NullPointer | A \| B | treat an atom disjunct as a one-term conjunction | high (not executed) | LogicMethods.TransformCounterexamples | LogicMethods.Transform |
| src/reasoning2/LogicMethods.java:585-594 | when simplifyConj keeps an atom operand, it still recurses into that atom's null operands | A ∧ A | return the kept atom as it is | high (not executed) | BinarySimplify.ConjOfEqualAtomsThrows | BinarySimplify.SimplifyConjCorrectedValue |
| src/reasoning2/LogicMethods.java:611-623 | simplifyFalsehoods recurses into a kept atom's null operands; its second test looks at the new node's right operand, even when that node is a conjunction | FALSE ∨ A; FALSE ∨ ((B ∨ C) ∧ FALSE) with only B true | return a kept atom as it is; drop FALSE only from a disjunction | high (not executed) | BinarySimplify.FalsehoodsFindings | BinarySimplify.SimplifyFalsehoodsCorrectedValue |
