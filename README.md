# Minesweeper AI knowledge base, modelled in Dafny

This project models the logical player of `minesweeper.py`.

**Sentences.** A `Sentence` says "exactly `count` of these `cells` are mines". It answers two queries: which cells it proves to be mines and which it proves safe. Marking a cell as a mine or as safe removes that cell from the sentence in place.

**The player.** `MinesweeperAI` holds four things:
- the cells it has clicked (`movesMade`);
- the cells it knows to be safe (`safes`);
- the cells it knows to be mines (`mines`);
- a list of `Sentence` objects (`knowledge`).

**Taking in a report.** When the board reports how many mines surround a revealed cell, `AddKnowledge` runs these steps in order:
1. It records the move and marks the cell safe.
2. It appends a sentence about the cell's neighbours.
3. It draws the conclusions of that sentence.
4. It runs one pass of subset subtraction over every pair of sentences.
5. It draws the conclusions of every sentence once.
6. It removes empty sentences.

**Choosing a move.** Two selectors pick the next move: a known-safe cell not yet clicked, or any unclicked cell not known to be a mine.

**Modules.** The model follows the source's structure.
- `Sentences` (sentences.dfy):
  - the class `Sentence`;
  - the value type `Constraint` and the ghost `Facts`, which give the value of a list of sentences at one moment;
  - `Holds(board, c)`, the meaning of a constraint on a board whose mines are `board`;
  - the value-level effect of resolving cells (`Cleared`, `Marked`, `ClearedAll`, `MarkedAll`);
  - the soundness lemmas.
- `Board` (board.dfy): board geometry (`Neighbours`, `Grid`) and the ghost count `NearbyMines` that a correct report must equal.
- `Inference` (inference.dfy): value-level specifications of the two list passes.
  - The pairwise pass is `Pass` over a pair rule, and `Pairwise` is `Pass` with the AI's rule `Derive`.
  - The removal of empty sentences while iterating is `Sweep`.
  - The membership test the source writes is `ContainsAsWritten`, over Python set elements (`PyValue`).
- `KnowledgeBase` (knowledge.dfy): the value of the AI's knowledge (`Knowledge`: safe cells, mines and sentence values) and what each step of `add_knowledge` makes of it.
  - `Observed` is the first steps, `ResolveAt` the conclusions of one sentence, `ResolveFrom` the resolution loop, `Deduced` the pairwise pass with the resolution loop and the clean-up, and `Added` the whole of `add_knowledge`.
  - Its lemmas say what these promise: true knowledge stays true, sets only grow, never by a clicked cell, and only by cells some sentence mentioned.
- `Player` (player.dfy): the class `MinesweeperAI`. Its methods change its fields and the sentences in place.
  - The methods that change sentences or draw conclusions state their new state through the value-level functions above (`MarkedAll`, `ClearedAll`, `Pairwise`, `Sweep`, `Observed`, `ResolveAt`, `ResolveFrom`, `Deduced`, `Added`).
  - `ScanRow`, `ScanNeighbours`, `Unmarked` and the two move selectors state their results directly on sets and cells.

**Invariants.** Three predicates describe the AI's state.
- `KnowledgeValid()` holds two things:
  - no sentence object appears twice in `knowledge`;
  - no sentence mentions a known-safe cell, a known mine, or a cell off the board.

  The methods that change only `safes`, `mines` and the sentences require and keep it. These are `MarkMine`, `MarkSafe`, the `Resolve…` and `Mark…` methods, `AddNeighbourSentence`, `Append`, `InferPairwise`, `CleanKnowledge`, `ResolveAll` and `Deduce`. None of them changes `movesMade`. The loop bodies `TellMine`, `TellSafe`, `InferFrom` and `Collect` need only that sentence objects are distinct.
- `Valid()` is `KnowledgeValid()` plus one more fact: every move made is known safe.

  `Click`, `Observe` and `AddKnowledge`, which record a move, require and keep it. So does `Conclude`, the rest of `add_knowledge`. The constructor establishes it. The move selectors require nothing and change nothing.
- `Sound(board)` is kept by the operations whose ensures say so, under the conditions they state. It says that everything the AI knows is true of a board whose mines are `board`:
  - its mines are mines;
  - its safe cells are not mines;
  - every sentence holds.

  `AddKnowledge` preserves `Sound` whenever two conditions hold: the revealed cell is no mine, and the reported count is `NearbyMines` of the cell.

The clean-up pass is modelled as written. It removes with `list.remove`, which removes the first sentence *equal* to the one seen (`__eq__` compares cells and count), and the iteration then skips the sentence that slides into the freed place. So an empty sentence can survive the pass (`Inference.SweepCanLeaveEmpty`). The pass still removes nothing but empty sentences, and keeps every non-empty sentence in order.

## Model

| member | source | states |
|---|---|---|
| Sentences.Sentence.constructor | minesweeper.py:95-97 | a sentence is built with exactly the given cells and count |
| Sentences.Sentence.Equals | minesweeper.py:99-100 | two sentences are equal exactly when their cells and counts agree, whichever objects they are; equal sentences are true of the same boards |
| Sentences.Constraint.KnownMines | minesweeper.py:105-113 | the result is non-empty exactly when the sentence has cells and its count equals their number, and then it is all the cells |
| Sentences.Constraint.KnownSafes | minesweeper.py:118-126 | the result is non-empty exactly when the count is zero and there are cells, and then it is all the cells; an empty count-0 sentence proves nothing |
| Sentences.Sentence.KnownMines | minesweeper.py:105-113 | a sentence's known mines are those of its current value, as `Constraint.KnownMines` states |
| Sentences.Sentence.KnownSafes | minesweeper.py:118-126 | a sentence's known safe cells are those of its current value, as `Constraint.KnownSafes` states |
| Sentences.Sentence.MarkMine | minesweeper.py:130-141 | the cell is removed, and the count drops by one exactly when the cell was present; an absent cell changes nothing |
| Sentences.Sentence.MarkSafe | minesweeper.py:143-150 | the cell is removed and the count is unchanged |
| Sentences.Cleared | minesweeper.py:143-150 | the value of a sentence after `mark_safe` of every cell of a set: those cells removed, the count kept; `ClearingAllOnce` and `RemovingResolvedCellsKeepsTruth` state its properties |
| Sentences.Marked | minesweeper.py:130-141 | the value of a sentence after `mark_mine` of every cell of a set: those cells removed, the count lowered by the number of them it held; `MarkedOne` ties it to one call of `mark_mine` |
| Sentences.ClearedAll | minesweeper.py:191-193 | the loop of `MinesweeperAI.mark_safe` on values: every sentence cleared of the cells, position by position; `ClearingAllOnce` states its properties |
| Sentences.MarkedAll | minesweeper.py:181-183 | the loop of `MinesweeperAI.mark_mine` on values: every sentence marked with the cells, position by position; `MarkingAllOnce` states its properties |
| Sentences.ResolvingAbsentCells | minesweeper.py:130-150 | resolving cells a constraint does not mention leaves it unchanged |
| Sentences.MarkedOne | minesweeper.py:130-141 | the value-level `Marked` of one cell is exactly what `Sentence.mark_mine` does to a sentence |
| Sentences.MarkingAllOnce | minesweeper.py:174-183 | after a cell is marked as a mine in every sentence, the list keeps its length, no sentence holds the cell, and marking it again changes nothing |
| Sentences.ClearingAllOnce | minesweeper.py:185-193 | after a cell is marked safe in every sentence, the list keeps its length, no sentence holds the cell, and marking it again changes nothing |
| Sentences.KnownMinesAreMines | minesweeper.py:109-111 | every cell a true sentence reports as a mine is a mine of the board |
| Sentences.KnownSafesAreSafe | minesweeper.py:122-124 | no cell a true sentence reports as safe is a mine of the board |
| Sentences.KnownSafesAndMinesExclusive | minesweeper.py:105-126 | no sentence reports cells both as mines and as safe |
| Sentences.RemovingResolvedCellsKeepsTruth | minesweeper.py:130-150 | removing safe cells, then mines together with the mines they account for, keeps a true sentence true |
| Sentences.ResolutionKeepsTruth | minesweeper.py:174-193 | resolving safe cells and mines in every sentence of a true list keeps the whole list true |
| Sentences.NeighbourSentenceHolds | minesweeper.py:217-232 | the neighbour sentence built from a correct count is true when clicked cells are safe, safe cells are no mines and known mines are mines |
| Sentences.SubsetRuleIsSound | minesweeper.py:274-279 | when one true sentence's cells lie inside another's, the difference of cells with the difference of counts is true |
| Board.Grid | minesweeper.py:341-342 | the grid holds exactly the cells on the board |
| Board.Neighbours | minesweeper.py:220-225 | the neighbours are exactly the on-board cells within one row and column, other than the cell itself |
| Board.NeighbourCount | minesweeper.py:220-221 | a cell has at most eight neighbours |
| Board.NearbyMines | minesweeper.py:56-79 | the count the board reports is the number of mines among the neighbours, at most eight |
| Inference.Derive | minesweeper.py:274-279 | what one pair (earlier, later) yields with the intended subset test: the later minus the earlier when the earlier's cells lie inside, else the earlier minus the later when the later's lie inside, else nothing; `PairwiseSound` proves what it yields true |
| Inference.Row | minesweeper.py:270-279 | the inner loop for sentence i: what the rule yields for each later sentence, in order; `RowWitness` and `RowHas` state which sentences it holds |
| Inference.Upto | minesweeper.py:269-279 | the outer loop's first i rounds: the rows of the sentences before i, in order; `UptoWitness` and `RowInUpto` state which sentences it holds |
| Inference.Pass | minesweeper.py:269-279 | the whole scan under a rule; `PassMembers` states that it holds exactly what the ordered pairs yield |
| Inference.Pairwise | minesweeper.py:264-279 | the list `inferred_knowledges` with the intended test; `PairwiseMembers`, `PairwiseWithinCells` and `PairwiseSound` state its properties |
| Inference.RowWitness | minesweeper.py:270-279 | every sentence the inner loop derives for sentence i comes from a later sentence paired with sentence i |
| Inference.RowHas | minesweeper.py:270-279 | whatever a later sentence paired with sentence i yields, the inner loop derives |
| Inference.UptoWitness | minesweeper.py:269-279 | every sentence the first rows of the scan derive comes from a pair (earlier, later) whose earlier sentence lies in those rows |
| Inference.RowInUpto | minesweeper.py:269-279 | every sentence a row of the scan derives appears among what the scan has derived by any later row |
| Inference.PassMembers | minesweeper.py:269-281 | a pass derives a sentence if and only if some ordered pair (earlier, later) yields it under the pair rule |
| Inference.PairwiseMembers | minesweeper.py:269-281 | the AI's pass derives exactly the subset differences of the pairs of its sentences |
| Inference.PairwiseWithinCells | minesweeper.py:274-279 | every derived sentence lies within the cells of a sentence it came from |
| Inference.PairwiseSound | minesweeper.py:274-279 | if every sentence is true of a board, so is every derived one |
| Inference.PySet | minesweeper.py:274 | the cells of a sentence as Python set elements: a cell is in the set exactly when its coordinate pair is an element |
| Inference.ContainsAsWritten | minesweeper.py:274-277 | the written test `s1.cells in s2.cells`: whether the frozen copy of the left set is an element of the right set; `ContainsAsWrittenNeverHolds` proves it never is |
| Inference.ContainsAsWrittenNeverHolds | minesweeper.py:274-277 | the elements of a cell set are coordinate pairs, never frozen sets, so the written test fails for every pair of sets |
| Inference.DeriveAsWritten | minesweeper.py:274-279 | with the membership test as written, no pair yields anything |
| Inference.AsWrittenDerivesNothing | minesweeper.py:269-281 | with the test as written, the pass derives nothing from any knowledge base |
| Inference.AsWrittenMissesChain | minesweeper.py:274-277 | for {(0,0),(0,1),(0,2)}=1 followed by {(0,0),(0,1)}=1, the written test derives nothing, while the subset test derives {(0,2)}=0 |
| Inference.RemoveFirst | minesweeper.py:311 | `list.remove` shortens a list holding the value by one; Python raises ValueError on a list without it, a case the sweep never reaches (it removes a sentence it has just read), so the list returned unchanged there is only for totality |
| Inference.RemoveFirstMultiset | minesweeper.py:311 | `list.remove` takes out exactly one occurrence of the value |
| Inference.RemoveFirstAt | minesweeper.py:311 | `list.remove` cuts out the first position holding an equal value |
| Inference.Sweep | minesweeper.py:307-313 | the clean-up as written: from position i on, an empty sentence is removed with `list.remove` and the iteration moves past the sentence that slides into its place; `SweepKeepsNonEmpty`, `SweepRemovesOnlyEmpty`, `SweepKeepsTruth` and `SweepCanLeaveEmpty` state its properties |
| Inference.NonEmpty | minesweeper.py:309-310 | the non-empty sentences of a list are all non-empty |
| Inference.NonEmptyIgnoresEmpty | minesweeper.py:310-311 | removing an empty sentence does not change the non-empty ones |
| Inference.SweepKeepsNonEmpty | minesweeper.py:307-313 | the clean-up keeps every non-empty sentence, in its original order |
| Inference.SweepRemovesOnlyEmpty | minesweeper.py:307-313 | the clean-up keeps only sentences that were there, and every sentence it removes is empty |
| Inference.SweepKeepsTruth | minesweeper.py:307-313 | a list true of a board stays true after the clean-up |
| Inference.SweepCanLeaveEmpty | minesweeper.py:309-311 | with two empty sentences in a row, the clean-up removes one and skips the other |
| KnowledgeBase.UnresolvedCleared | minesweeper.py:190-193 | once cells are removed from every sentence, they may join the safe cells without a sentence mentioning a safe cell |
| KnowledgeBase.UnresolvedMarked | minesweeper.py:180-183 | once cells are marked in every sentence, they may join the mines without a sentence mentioning a mine |
| KnowledgeBase.UnresolvedConcat | minesweeper.py:232-233 | appending sentences that mention no resolved or off-board cell keeps the list so |
| KnowledgeBase.UnresolvedPairwise | minesweeper.py:274-281 | derived sentences mention only cells of existing sentences, so none mentions a resolved or off-board cell |
| KnowledgeBase.UnresolvedSweep | minesweeper.py:307-313 | the clean-up keeps the property that no sentence mentions a resolved or off-board cell |
| KnowledgeBase.MentionedShrinks | minesweeper.py:174-193 | clearing safe cells and marking mines never adds a cell to any sentence |
| KnowledgeBase.Observed | minesweeper.py:210-233 | the first steps append exactly one sentence; what they conclude is stated by the lemmas `Observed…` below |
| KnowledgeBase.ObservedConcludes | minesweeper.py:210-233 | the revealed cell joins the safe cells and is cleared from every earlier sentence; the mines are unchanged; the new sentence holds exactly the on-board neighbours not clicked, known safe or known mines, and its count is the report less the known mines among the neighbours not clicked or safe |
| KnowledgeBase.ObservedIsTrue | minesweeper.py:210-233 | when the revealed cell is no mine, the report is the board's count and every move made was safe, true knowledge stays true after the first steps |
| KnowledgeBase.ObservedMentions | minesweeper.py:217-233 | after the first steps, sentences mention only cells mentioned before and neighbours of the revealed cell |
| KnowledgeBase.ResolveAt | minesweeper.py:284-301 | the conclusions of one sentence keep the number of sentences; what they conclude is stated by the lemmas `ResolveAt…` below |
| KnowledgeBase.ResolveAtConcludes | minesweeper.py:236-254 | the conclusions of one sentence only add to the safe cells and the mines, only cells of that sentence, never a clicked cell and never one cell to both; no sentence gains a cell |
| KnowledgeBase.ResolveAtIsTrue | minesweeper.py:236-254 | the conclusions of a sentence of true knowledge keep it true |
| KnowledgeBase.ResolveAtKeepsApart | minesweeper.py:236-254 | after the conclusions of one sentence no sentence mentions a resolved or off-board cell, the new cells lie on the board, and safe cells and mines that were apart stay apart |
| KnowledgeBase.ResolveFrom | minesweeper.py:282-302 | the resolution loop keeps the number of sentences; what it concludes is stated by the lemmas `ResolveFrom…` below |
| KnowledgeBase.ResolveFromConcludes | minesweeper.py:282-302 | the resolution loop only adds to the safe cells and the mines, only cells some sentence mentioned, never a clicked cell; no sentence gains a cell |
| KnowledgeBase.ResolveFromIsTrue | minesweeper.py:282-302 | the resolution loop keeps true knowledge true |
| KnowledgeBase.ResolveFromKeepsApart | minesweeper.py:282-302 | after the resolution loop no sentence mentions a resolved or off-board cell, the new cells lie on the board, and safe cells and mines that were apart stay apart |
| KnowledgeBase.Deduced | minesweeper.py:259-313 | the end of `add_knowledge` on values: one pairwise pass appended, the resolution loop over the longer list, then the clean-up; `DeducedIsTrue` and `DeducedConcludes` state its properties |
| KnowledgeBase.DeducedIsTrue | minesweeper.py:259-313 | the pairwise pass, the resolution loop and the clean-up keep true knowledge true |
| KnowledgeBase.DeducedConcludes | minesweeper.py:259-313 | the deductions only add to the safe cells and the mines, only cells some sentence mentioned before them, never a clicked cell |
| KnowledgeBase.ResolvedAndDeducedWereMentioned | minesweeper.py:236-313 | the conclusions of one sentence followed by the deductions conclude only cells some sentence mentioned before them |
| KnowledgeBase.Added | minesweeper.py:195-313 | the whole of `add_knowledge` on values: `Observed`, the conclusions of the new last sentence, then `Deduced`; `AddedIsTrue`, `AddedConcludes` and `AddedCellsWereMentioned` state its properties |
| KnowledgeBase.AddedIsTrue | minesweeper.py:195-313 | when the revealed cell is no mine, the report is the board's count, every move made was safe and everything known is true of the board, everything known after `add_knowledge` is true of it too |
| KnowledgeBase.AddedConcludes | minesweeper.py:195-313 | `add_knowledge` makes the revealed cell safe and otherwise only adds to the safe cells and the mines, never a clicked cell or the revealed cell |
| KnowledgeBase.AddedCellsWereMentioned | minesweeper.py:195-313 | every cell `add_knowledge` concludes, other than the revealed cell, is a neighbour of it or a cell some sentence mentioned |
| Player.MinesweeperAI.constructor | minesweeper.py:158-172 | a new AI has the given size, no moves, no known cells, no sentences, and satisfies the invariant |
| Player.MinesweeperAI.MarkMine | minesweeper.py:174-183 | the cell joins the mines, and every sentence becomes its value with the cell marked as a mine; the list and the invariant are kept |
| Player.MinesweeperAI.TellMine | minesweeper.py:181-183 | the loop leaves every sentence with the cell marked as a mine |
| Player.MinesweeperAI.MarkSafe | minesweeper.py:185-193 | the cell joins the safe cells, and every sentence becomes its value with the cell removed; the list and the invariant are kept |
| Player.MinesweeperAI.TellSafe | minesweeper.py:191-193 | the loop leaves every sentence with the cell removed |
| Player.MinesweeperAI.Unmarked | minesweeper.py:238-241 | the collected list holds exactly the known cells not yet marked and not yet clicked |
| Player.MinesweeperAI.MarkEachSafe | minesweeper.py:243-244 | marking each listed cell safe adds them all to the safe cells and removes them all from every sentence |
| Player.MinesweeperAI.MarkEachMine | minesweeper.py:252-253 | marking each listed cell as a mine adds them all to the mines and marks them in every sentence |
| Player.MinesweeperAI.MarkKnownSafes | minesweeper.py:236-244 | a sentence proving its cells safe has its unresolved, unclicked cells marked safe, and its count stays zero |
| Player.MinesweeperAI.ResolveSafes | minesweeper.py:236-244 | exactly the known safes of the sentence that are not yet safe and not clicked join the safe cells; its known mines are unchanged |
| Player.MinesweeperAI.MarkKnownMines | minesweeper.py:246-253 | a sentence proving its cells mines has its unresolved, unclicked cells marked as mines |
| Player.MinesweeperAI.ResolveMines | minesweeper.py:246-253 | exactly the known mines of the sentence that are not yet mines and not clicked join the mines |
| Player.MinesweeperAI.Resolve | minesweeper.py:236-254 | the conclusions of one sentence: exact new safe cells and mines, every sentence updated accordingly, new cells unclicked and on the board, safes and mines kept apart, soundness kept |
| Player.MinesweeperAI.ScanRow | minesweeper.py:221-231 | one row of the scan collects exactly the candidates of that row that are not mines, and lowers the count once per candidate mine |
| Player.MinesweeperAI.ScanNeighbours | minesweeper.py:217-231 | the neighbour cells are exactly the on-board neighbours not clicked, safe or mines; the count is lowered by the known mines among those not clicked or safe |
| Player.MinesweeperAI.Click | minesweeper.py:210-214 | the cell joins the moves made and the safe cells, every sentence loses it, and soundness is kept when the cell is no mine |
| Player.MinesweeperAI.AddNeighbourSentence | minesweeper.py:217-233 | exactly one new sentence is appended, with the scanned cells and the adjusted count; it is true when the count is correct |
| Player.MinesweeperAI.Append | minesweeper.py:232-233 | appending a fresh sentence about unresolved cells keeps the invariant, and keeps soundness when the sentence is true |
| Player.MinesweeperAI.InferFrom | minesweeper.py:270-279 | the inner loop appends exactly the row of derivations for sentence i, each a new object |
| Player.MinesweeperAI.Collect | minesweeper.py:275-279 | appending a derived sentence adds exactly one fresh object with the given cells and count after those derived so far, keeping every object distinct |
| Player.MinesweeperAI.InferAll | minesweeper.py:264-279 | the scan collects exactly what the pairwise pass derives, in scan order, each a new object |
| Player.MinesweeperAI.InferPairwise | minesweeper.py:259-281 | the knowledge becomes the old list followed by everything the pass derives from it; the invariant and soundness are kept |
| Player.MinesweeperAI.IndexOfEqual | minesweeper.py:311 | the search finds the first position holding a sentence equal to the given one |
| Player.MinesweeperAI.CleanKnowledge | minesweeper.py:307-313 | the knowledge becomes the value-level sweep of the old list, with no new sentences; the result is the number removed |
| Player.MinesweeperAI.ResolveAll | minesweeper.py:282-302 | the list is kept and the new state is exactly `ResolveFrom` of the old one; only unclicked on-board cells are added to safes and mines, they stay apart, and soundness is kept |
| Player.MinesweeperAI.ResolveEach | minesweeper.py:282-302 | the loop over the sentences leaves exactly the state `ResolveFrom` gives |
| Player.MinesweeperAI.ResolveNext | minesweeper.py:284-301 | one round of the loop takes the state one sentence further along `ResolveFrom` |
| Player.MinesweeperAI.Observe | minesweeper.py:210-233 | the move is recorded and marked safe, exactly one sentence is appended with the scanned cells and adjusted count, and the new state is exactly `Observed` of the old one |
| Player.MinesweeperAI.Deduce | minesweeper.py:259-313 | the new state is exactly `Deduced` of the old one; the sets grow only by unclicked on-board cells, stay apart, and soundness is kept |
| Player.MinesweeperAI.Conclude | minesweeper.py:236-313 | the new state is exactly `Deduced` after `ResolveAt` of the new sentence's position, with the same guarantees |
| Player.MinesweeperAI.AddKnowledge | minesweeper.py:195-313 | the new state is exactly `Added` of the old one; the cell joins the moves made and the safe cells, nothing is removed from any set, new cells are unclicked and on the board, safes and mines stay apart, and a correct report keeps everything known true |
| Player.MinesweeperAI.MakeSafeMove | minesweeper.py:315-329 | returns none exactly when every safe cell has been clicked, and otherwise an unclicked safe cell; nothing changes |
| Player.MinesweeperAI.MakeRandomMove | minesweeper.py:333-348 | returns none exactly when every board cell is clicked or a known mine, and otherwise an on-board cell that is neither; nothing changes |

## Left out

- The game itself (`Minesweeper`: random mine placement, printing, `is_mine`, `won`) is not part of this model. The mine layout appears only as the ghost set `board`, and `nearby_mines` as the ghost function `Board.NearbyMines`.
- The debug `print` calls inside `add_knowledge` are not modelled. They are output only.
- `random.choice` becomes a nondeterministic pick (`:|`). Uniformity is not modelled.
- `Sentence.__str__` is not modelled. It is output only.
- Player.MinesweeperAI.AddKnowledge: the soundness guarantee needs a correct report. The revealed cell must be no mine, and the count must equal the board's count. No code checks either.
- Player.MinesweeperAI.AddKnowledge: `safes` and `mines` are proved to stay apart only under two conditions: they were apart before, and the revealed cell was not a known mine. No code checks this disjointness.
- Iteration order of Python sets (lines 239, 249, 287, 297) is any order. The model proves the same result for every order.
- Player.MinesweeperAI.ScanNeighbours: builds a set where the source builds the list `sur_cells`. No cell is visited twice, and `Sentence.__init__` turns the list into a set.

## Findings

| source | as written | input that shows it | evidently intended | confidence | as-written member | corrected member |
|---|---|---|---|---|---|---|
| minesweeper.py:274-277 | `s1.cells in s2.cells` tests whether the set `s1.cells` is an element of `s2.cells`; the elements are coordinate pairs, so the test never holds and the pass derives nothing | knowledge `[{(0,0),(0,1),(0,2)}=1, {(0,0),(0,1)}=1]`: nothing is derived, though `{(0,2)}=0` follows | the subset test `s1.cells <= s2.cells` (and `s2.cells <= s1.cells`) | high; not executed | Inference.AsWrittenDerivesNothing | Inference.PairwiseMembers |
