# Search and inference in three small games

This project models, in Dafny, the algorithmic core of three AI exercises:

- **Crossword generation** (`Project-3/crossword/generate.py`). A CSP solver fills word slots from a word list. It runs in four stages:
  - node consistency removes words of the wrong length;
  - AC-3 arc consistency removes words that no word of an overlapping slot can meet;
  - backtracking search picks a slot by the minimum-remaining-values and degree heuristics, tries its words least-constraining first, and re-runs AC-3 after every tentative binding;
  - a letter grid is drawn from the result.
- **Minesweeper** (`Project-1/minesweeper/minesweeper.py`). It has three parts:
  - the board, which reports whether a cell is a mine, counts the mines around a cell, and says whether the game is won;
  - `Sentence`, a set of cells together with how many of them are mines;
  - the knowledge-based player. It records each revealed count as a sentence, marks the cells that single sentences give away, and adds the differences of nested sentences (the subset rule) until nothing new follows.
- **Tic-tac-toe** (`Project-0/Tic-Tac-Toe/tictactoe.py`). It has two parts:
  - the game rules: initial board, whose turn it is, legal moves, the result of a move, winner, end of game and score;
  - minimax with its inner `max_value` and `min_value`.

## Modules

Each module follows the code's own form:

- **`Optional`** (`optional.dfy`) and **`Collections`** (`collections.dfy`) hold the Python idioms the core relies on:
  - `None`;
  - negative indices;
  - listing a set;
  - `sorted(..., key=...)` as a stable insertion sort.
- **`Puzzle`** (`puzzle.dfy`) describes the crossword and is the specification the solver is proved against:
  - slots, the overlap table and domains;
  - what a solution is (`SolutionWithin`);
  - what `revise` must leave (`Pruned`);
  - the least-constraining-value count (`RuledOut`).
- **`Generate`** (`generate.dfy`) holds:
  - the class `CrosswordCreator`, whose `domains` map its methods update in place, as `self.domains` is;
  - the class `Assignment`, the dictionary that `backtrack` extends and shrinks in place and hands back on success;
  - `letter_grid`, which writes into a two-dimensional array.
- **`Mines`** (`minesweeper.dfy`) holds three classes:
  - `Minesweeper`, with a Boolean array as the board;
  - `Sentence`, whose `cells` and `count` are updated in place;
  - `MinesweeperAI`, whose `movesMade`, `mines`, `safes` and `knowledge` are updated in place.

  Sentences are shared objects: marking a cell changes every sentence in the knowledge base through its reference.
- **`TicTacToe`** (`tictactoe.dfy`) is mostly pure code and stays functions over a 3×3 board. Its exceptions:
  - `player`, `actions`, `winner` and `terminal` loop in the source, so they are methods with loops;
  - `max_value` and `min_value` are mutually recursive methods, proved equal to a ghost minimax value function (`Value`).

## Main results

- **Crossword.**
  - `Solve` returns an assignment exactly when a solution exists within the initial domains. The assignment it returns is a solution.
  - Every slot gets a word of the slot's length, no word is used twice, and overlapping slots agree at the shared cell.
  - AC-3 never removes a word of any solution. When it reports success, every arc it was seeded with (all arcs when given none) is arc consistent, and so is every arc that was already consistent on entry.
  - `backtrack` never restores the domains that a failed branch pruned. A textbook solver that maintains arc consistency restores them, and skipping that step could make the search miss solutions. Here it is harmless. The binding x := w is never written into the domains: AC-3 reads only the domains, so whichever domain it shrinks, it removes only words that belong to no solution within the current domains (`PrunedKeepsSolutions`, `KeepsSolutions`). No solution is lost, and the model proves `Backtrack` complete as written.
- **Minesweeper.**
  - Take a ghost set of true mine positions, and feed `AddKnowledge` the correct count of a cell that is safe. Then every cell the player calls a mine is a mine, every cell it calls safe is not, and every sentence counts its mines right.
  - When the inference loop stops on its own, no sentence gives away its cells and the sentences are closed under the subset rule.
  - Each pass of the loop is stated exactly on what the sentences say (`Pass`). The known safes and mines grow by the cells single sentences give away, and each sentence loses those cells, with its count lowered by the mines it lost. Then the differences of nested sentences are added and the empty sentences dropped.
  - `AddKnowledge` is stated as a whole on the same values. The loop starts from what was said with the cell marked safe, plus the pair of the count sentence when it has cells. After `passes` passes, what is said is `Pass` applied `passes` times to that start. The known safes and mines are the old ones, the cell, and exactly what those passes gave away. Every pass but the last found something new, and the loop stopped on its own exactly when the last pass found nothing; otherwise the fuel ran out after `fuel` passes.
- **Tic-tac-toe.**
  - `max_value` and `min_value` compute the minimax value under any terminal scoring, and the move they return reaches that value.
  - `Minimax` returns no move exactly on a finished board. Otherwise it returns a move that is best for the player to move under `utility`, as written.

## Model

| member | source | states |
|---|---|---|
| Collections.PyIndex | Project-0/Tic-Tac-Toe/tictactoe.py:60-65 | an index from -n up to n-1 names a position below n: a non-negative index names itself and a negative one names i + n (Python indexing, as `board[i][j]` reads it) |
| Collections.ListOf | Project-3/crossword/generate.py:26 | iterating a set visits each element exactly once: the list is a permutation of the set |
| Collections.InsertByKey | Project-3/crossword/generate.py:259 | inserting into a list sorted by key keeps it sorted and adds exactly that element |
| Collections.SortByKey | Project-3/crossword/generate.py:259 | `sorted(..., key=...)`: the result is ordered by non-decreasing key and is a permutation of the input |
| Puzzle.OverlapSymmetric | Project-3/crossword/generate.py:214-221 | in a well-formed puzzle, the overlap of (y, x) is the overlap of (x, y) with its two positions swapped |
| Puzzle.OverlapFlips | Project-3/crossword/generate.py:217-221 | an existing overlap of (x, y) is seen from y's side with the positions swapped |
| Puzzle.NeighborsSymmetric | Project-3/crossword/generate.py:181-182 | y is a neighbour of x exactly when x is a neighbour of y, which is why AC-3 re-queues the arcs (neighbour, x) |
| Puzzle.Pruned | Project-3/crossword/generate.py:111-149 | what `revise` leaves: only x's domain shrinks, and afterwards every word of x has a partner in y's domain at the overlap |
| Puzzle.PrunedKeepsArc | Project-3/crossword/generate.py:171-182 | pruning x keeps every arc consistent except those pointing at x, whose neighbours AC-3 re-queues |
| Puzzle.PrunedKeepsSolutions | Project-3/crossword/generate.py:136-147 | `revise` removes no word of any solution within the current domains |
| Puzzle.CandidatesShrink | Project-3/crossword/generate.py:171-182 | a revision that changes a domain strictly shrinks the set of (slot, word) candidates, so AC-3 terminates |
| Puzzle.Complete | Project-3/crossword/generate.py:186-192 | `assignment_complete` holds exactly when every slot of the puzzle is bound |
| Puzzle.LengthFilterKeepsSolutions | Project-3/crossword/generate.py:96-109 | dropping only words of the wrong length keeps every solution |
| Puzzle.ConsistentPart | Project-3/crossword/generate.py:300-304 | part of a consistent assignment is consistent |
| Puzzle.InconsistentHasNoSolution | Project-3/crossword/generate.py:303-304 | no solution extends an inconsistent assignment, so skipping such a candidate loses nothing |
| Puzzle.EmptyDomainHasNoSolution | Project-3/crossword/generate.py:176-178 | a slot with an empty domain leaves no solution at all, so stopping there is right |
| Puzzle.NoSolutionAtAll | Project-3/crossword/generate.py:88-94 | when no solution extends the empty assignment, there is no solution |
| Puzzle.TriedAll | Project-3/crossword/generate.py:297-320 | when no solution extends any binding of x to a word of its domain, no solution extends the assignment |
| Puzzle.TriedEvery | Project-3/crossword/generate.py:297-320 | the same for a list of candidates that is a permutation of x's domain |
| Puzzle.BindingShrinksUnbound | Project-3/crossword/generate.py:306-313 | binding an unbound slot leaves strictly fewer unbound slots, so the recursion terminates |
| Puzzle.UnbindRestores | Project-3/crossword/generate.py:306-318 | `assignment.pop(var)` after `assignment[var] = value` gives back the assignment as it was |
| Puzzle.ExtendsBound | Project-3/crossword/generate.py:313-315 | a result that keeps the bindings of `a[x := w]` keeps those of `a` and binds x to w |
| Puzzle.CompletedBelow | Project-3/crossword/generate.py:311-315 | a consistent, complete result found below x := w completes the assignment with words from the earlier, larger domains |
| Puzzle.ConsistentIsCoherent | Project-3/crossword/generate.py:194-223 | a consistent assignment never puts two different letters in one cell |
| Puzzle.RuledOutOverRemove | Project-3/crossword/generate.py:240-255 | the least-constraining-value count does not depend on the order the neighbours are visited in |
| Puzzle.ShrunkTransitive | Project-3/crossword/generate.py:92-93 | domains that only shrink twice have only shrunk |
| Puzzle.KeepsTransitive | Project-3/crossword/generate.py:92-93 | two steps that keep every solution keep every solution |
| Puzzle.NoSolutionBack | Project-3/crossword/generate.py:92-94 | no solution in the pruned domains and no solution lost by pruning means no solution in the original domains |
| Generate.ReviseStep | Project-3/crossword/generate.py:171-182 | after revising the front arc and re-queueing x's neighbours, every tracked arc is consistent or still queued |
| Generate.Assignment.constructor | Project-3/crossword/generate.py:94 | `dict()`: an empty assignment |
| Generate.CrosswordCreator.constructor | Project-3/crossword/generate.py:8-16 | every slot's domain starts as the whole word list |
| Generate.CrosswordCreator.EnforceNodeConsistency | Project-3/crossword/generate.py:96-109 | afterwards every domain holds exactly the words of the slot's length it held before: it is node consistent, only shrinks, keeps every right-length word and every solution, and changes nothing when already node consistent |
| Generate.CrosswordCreator.Revise | Project-3/crossword/generate.py:111-149 | the new domains are `Pruned(old, x, y)`, and the result is true exactly when x's domain changed (never without an overlap) |
| Generate.CrosswordCreator.AllArcs | Project-3/crossword/generate.py:161-165 | the initial work list holds exactly the arcs (v1, v2) with v2 a neighbour of v1 |
| Generate.CrosswordCreator.Requeue | Project-3/crossword/generate.py:180-182 | the old queue stays at the front, in order, and behind it come exactly the arcs (n, x) for the neighbours n of x other than y, each once |
| Generate.CrosswordCreator.AC3 | Project-3/crossword/generate.py:151-184 | domains only shrink and lose no solution; False means some domain is empty; True means every tracked arc is arc consistent: every arc seeded (all arcs when none are given), and every arc that was consistent on entry |
| Generate.CrosswordCreator.Consistent | Project-3/crossword/generate.py:194-223 | True exactly when every word has its slot's length, no word is used twice, and neighbouring bound slots agree at their overlap |
| Generate.CrosswordCreator.UnassignedEntries | Project-3/crossword/generate.py:269-275 | the list holds exactly the entries (slot, remaining values, degree) of the unbound slots |
| Generate.CrosswordCreator.MinByKey | Project-3/crossword/generate.py:279 | `min(..., key=...)`: no entry has a smaller key than the one picked, and every earlier entry has a larger key (the first minimum) |
| Generate.CrosswordCreator.SelectUnassignedVariable | Project-3/crossword/generate.py:261-279 | an unbound slot such that no unbound slot has fewer remaining values, or as many with a larger degree |
| Generate.CrosswordCreator.CountMismatches | Project-3/crossword/generate.py:253-255 | the number of the neighbour's words that disagree with `value` at the overlap |
| Generate.CrosswordCreator.CountRuledOut | Project-3/crossword/generate.py:236-257 | the count equals `RuledOut`: the words ruled out over all unbound overlapping neighbours |
| Generate.CrosswordCreator.OrderDomainValues | Project-3/crossword/generate.py:225-259 | a permutation of the slot's domain, ordered by non-decreasing number of ruled-out neighbour words |
| Generate.CrosswordCreator.ArcsToward | Project-3/crossword/generate.py:309-310 | exactly the arcs (n, var) for the neighbours n of var not yet bound |
| Generate.CrosswordCreator.MaintainArcConsistency | Project-3/crossword/generate.py:308-311 | domains only shrink and lose no solution; on success every arc (n, var) toward the bound slot is consistent, and on failure the emptied slot is named |
| Generate.CrosswordCreator.TryValue | Project-3/crossword/generate.py:299-318 | one candidate: on failure the assignment is as before and no solution extends it with var := value; on success it is a complete, consistent extension drawn from the domains |
| Generate.CrosswordCreator.TryInOrder | Project-3/crossword/generate.py:297-320 | trying a permutation of var's domain in order: null means no solution extends the assignment, otherwise the assignment was completed in place from the entry domains |
| Generate.CrosswordCreator.Backtrack | Project-3/crossword/generate.py:281-320 | domains only shrink and lose no solution; null means no solution within the entry domains extends the assignment, which is then unchanged; non-null means the same object is handed back, complete, extending the entry assignment, with every new binding drawn from the entry domains, and consistent whenever the entry assignment was |
| Generate.CrosswordCreator.Solve | Project-3/crossword/generate.py:88-94 | the result is a solution within the initial domains, and null only when there is none |
| Generate.Offset | Project-3/crossword/generate.py:29-30 | the letter position of a slot that lands in a given cell along it |
| Generate.WriteWord | Project-3/crossword/generate.py:27-31 | writing one word sets exactly the cells along its slot to its letters, and keeps every other cell |
| Generate.DrawnStep | Project-3/crossword/generate.py:26-31 | writing one more word keeps the grid showing only letters of bound words, covering every bound slot, and showing each word when the words agree |
| Generate.CrosswordCreator.LetterGrid | Project-3/crossword/generate.py:18-32 | a height-by-width grid whose filled cells are exactly the covered ones, each with a letter of a word that covers it; each word reads back when no two words disagree |
| Mines.Neighbourhood | Project-1/minesweeper/minesweeper.py:191-195 | exactly the adjacent cells inside the board |
| Mines.AtMostEight | Project-1/minesweeper/minesweeper.py:66-76 | a cell has at most eight neighbours |
| Mines.Minesweeper.constructor | Project-1/minesweeper/minesweeper.py:10-34 | a board whose True cells are exactly the given mines, with no mine found yet |
| Mines.Minesweeper.IsMine | Project-1/minesweeper/minesweeper.py:51-53 | True exactly when the cell (negative indices read as Python does) is a mine |
| Mines.ScanStep | Project-1/minesweeper/minesweeper.py:66-76 | scanning one more cell counts it exactly when it is a mine next to `cell` |
| Mines.ScanDone | Project-1/minesweeper/minesweeper.py:66-67 | the 3×3 scan around `cell` visits exactly its neighbours |
| Mines.Minesweeper.NearbyMines | Project-1/minesweeper/minesweeper.py:55-78 | the number of mines adjacent to the cell, at most 8 |
| Mines.Minesweeper.Won | Project-1/minesweeper/minesweeper.py:80-84 | on a well-formed board, won exactly when every flag is on the board and a cell is flagged exactly when the board array holds a mine there |
| Mines.Sentence.constructor | Project-1/minesweeper/minesweeper.py:94-96 | a sentence with the given cells and count |
| Mines.Sentence.Equals | Project-1/minesweeper/minesweeper.py:98-99 | equal exactly when cells and counts are equal |
| Mines.Sentence.KnownMines | Project-1/minesweeper/minesweeper.py:104-110 | all the cells when the count equals the number of cells and is positive, and none otherwise |
| Mines.Sentence.KnownSafes | Project-1/minesweeper/minesweeper.py:112-118 | all the cells when the count is 0, and none otherwise |
| Mines.KnownMinesSound | Project-1/minesweeper/minesweeper.py:104-110 | the cells a true sentence gives away as mines are mines |
| Mines.KnownSafesSound | Project-1/minesweeper/minesweeper.py:112-118 | the cells a true sentence gives away as safe are not mines |
| Mines.Sentence.MarkMine | Project-1/minesweeper/minesweeper.py:120-127 | drops the cell, and lowers the count by one only when the cell was in the sentence |
| Mines.MarkMineKeepsTruth | Project-1/minesweeper/minesweeper.py:120-127 | marking a real mine keeps a true sentence true |
| Mines.Sentence.MarkSafe | Project-1/minesweeper/minesweeper.py:129-135 | drops the cell and keeps the count |
| Mines.MarkSafeKeepsTruth | Project-1/minesweeper/minesweeper.py:129-135 | marking a real safe cell keeps a true sentence true |
| Mines.SubsetRuleKeepsTruth | Project-1/minesweeper/minesweeper.py:241-244 | when s1 ⊆ s2 are true sentences, s2 − s1 with count n2 − n1 is true |
| Mines.NewSentenceTrue | Project-1/minesweeper/minesweeper.py:197-208 | the count sentence over the unknown neighbours, with the known mines subtracted, is true |
| Mines.SaidConcat | Project-1/minesweeper/minesweeper.py:251 | extending the knowledge base adds exactly the new sentences' contents |
| Mines.SaidAppend | Project-1/minesweeper/minesweeper.py:207-208 | appending one sentence adds exactly its (cells, count) to what is said |
| Mines.MarkedSafeSaid | Project-1/minesweeper/minesweeper.py:168-175 | when every sentence lost the cell and kept its count, what is said is what was said with the cell marked safe |
| Mines.ShownBySaid | Project-1/minesweeper/minesweeper.py:219-229 | the cells the sentences give away as safe and as mines are exactly those the pairs they say give away |
| Mines.NonEmpty | Project-1/minesweeper/minesweeper.py:254 | `[s for s in knowledge if s.cells]`: keeps exactly the non-empty sentences |
| Mines.NonEmptyKeepsClosed | Project-1/minesweeper/minesweeper.py:254 | dropping empty sentences keeps the knowledge closed under the subset rule |
| Mines.NonEmptyKeepsTrue | Project-1/minesweeper/minesweeper.py:254 | dropping empty sentences keeps every remaining sentence true |
| Mines.ClosedByPairs | Project-1/minesweeper/minesweeper.py:239-251 | when every difference of a subset pair is present, the knowledge is closed under the subset rule |
| Mines.Said | Project-1/minesweeper/minesweeper.py:237-254 | every sentence's (cells, count) is among what the list says |
| Mines.SaidTrue | Project-1/minesweeper/minesweeper.py:237-254 | whatever true sentences say is true |
| Mines.SaidFacts | Project-1/minesweeper/minesweeper.py:237-254 | what a list says is exactly the (cells, count) of its sentences, repeats merged |
| Mines.MarkedKeepsTruth | Project-1/minesweeper/minesweeper.py:232-235 | marking non-mines safe and mines as mines keeps a true sentence true |
| Mines.MarkedFacts | Project-1/minesweeper/minesweeper.py:232-235 | marking each sentence of a list says what marking everything the list says says |
| Mines.ShownSound | Project-1/minesweeper/minesweeper.py:219-229 | the cells true sentences give away as safe are not mines, and those given away as mines are mines |
| Mines.PairsAreDerived | Project-1/minesweeper/minesweeper.py:239-249 | every collected pair is a difference the subset rule forms from what is said |
| Mines.DerivedArePairs | Project-1/minesweeper/minesweeper.py:239-249 | every difference the subset rule forms from what is said is already said or collected |
| Mines.DerivedTrue | Project-1/minesweeper/minesweeper.py:241-244 | every difference the subset rule forms from true pairs is true |
| Mines.PairsTrue | Project-1/minesweeper/minesweeper.py:239-251 | true pairs together with new pairs derived from them are all true |
| Mines.SaidSilent | Project-1/minesweeper/minesweeper.py:219-229 | when no sentence gives anything away, nothing they say does |
| Mines.ExtendKeepsSilent | Project-1/minesweeper/minesweeper.py:237-258 | a pass whose subset rule adds nothing keeps every pair silent |
| Mines.MinesweeperAI.constructor | Project-1/minesweeper/minesweeper.py:143-157 | no moves, no known mines or safes, no sentences |
| Mines.MinesweeperAI.MarkMine | Project-1/minesweeper/minesweeper.py:159-166 | adds the cell to the mines and marks it in every sentence; marking a real mine keeps the knowledge sound |
| Mines.MinesweeperAI.MarkSafe | Project-1/minesweeper/minesweeper.py:168-175 | adds the cell to the safes and removes it from every sentence; marking a safe cell keeps the knowledge sound |
| Mines.MinesweeperAI.NeighbourCells | Project-1/minesweeper/minesweeper.py:191-195 | exactly the in-board cells around the cell |
| Mines.MinesweeperAI.Unknown | Project-1/minesweeper/minesweeper.py:198-204 | the neighbours neither known mine nor known safe, and the count less the known mines among the neighbours |
| Mines.MinesweeperAI.AddCountSentence | Project-1/minesweeper/minesweeper.py:189-208 | appends the sentence over the unknown neighbours, if there are any, with the count less the known mines among the neighbours; what is said gains exactly that pair (`Recorded`) and nothing else; the known mines and safes are unchanged; keeps the knowledge sound when the count is right |
| Mines.MinesweeperAI.Collect | Project-1/minesweeper/minesweeper.py:215-229 | exactly the cells some sentence gives away as safe and as mines; new information exactly when one of those sets is non-empty, which is exactly when some sentence is not silent |
| Mines.MinesweeperAI.MarkSafes | Project-1/minesweeper/minesweeper.py:232-233 | marks every cell of the set safe in the player and in every sentence |
| Mines.MinesweeperAI.MarkMines | Project-1/minesweeper/minesweeper.py:234-235 | marks every cell of the set as a mine in the player and in every sentence |
| Mines.MinesweeperAI.MarkCells | Project-1/minesweeper/minesweeper.py:232-235 | the safes and mines grow by the two sets, the list of sentences is the same, and each sentence becomes its marked form; soundness is kept when the sets are right |
| Mines.MinesweeperAI.MarkKnown | Project-1/minesweeper/minesweeper.py:215-235 | the safes and mines grow by exactly the cells single sentences gave away on entry, and each sentence becomes its marked form; new information exactly when anything was given away; soundness is kept; no new information means no sentence gives anything away |
| Mines.MinesweeperAI.DifferencesWith | Project-1/minesweeper/minesweeper.py:240-249 | for one s1, every difference with a superset sentence is already known or collected, and no collected pair is repeated |
| Mines.MinesweeperAI.Differences | Project-1/minesweeper/minesweeper.py:238-249 | every difference of a subset pair is already a sentence or in the new list, and the new list has no repeats |
| Mines.MinesweeperAI.NewSentences | Project-1/minesweeper/minesweeper.py:238-249 | every collected pair is a difference the subset rule forms; together with what is said they give exactly what is said plus every such difference; there are new pairs exactly when some difference is not yet said, and none means the knowledge is closed |
| Mines.MinesweeperAI.Build | Project-1/minesweeper/minesweeper.py:244 | one fresh sentence per collected pair, with its cells and count; the new list says exactly the pairs |
| Mines.MinesweeperAI.Appended | Project-1/minesweeper/minesweeper.py:251-254 | the old sentences followed by fresh ones for the pairs, empty ones dropped: it says exactly the non-empty pairs of what was said and the new pairs |
| Mines.MinesweeperAI.AppendSentences | Project-1/minesweeper/minesweeper.py:251-254 | the knowledge says exactly the non-empty pairs of what it said and of the new pairs, holds only old or fresh sentences, none empty; soundness is kept |
| Mines.MinesweeperAI.AddDifferences | Project-1/minesweeper/minesweeper.py:237-254 | what is said becomes `Extend` of what was said (it plus every subset-rule difference, empty pairs dropped); something was added exactly when some difference was not yet said; soundness is kept; adding nothing leaves the knowledge closed under the subset rule |
| Mines.MinesweeperAI.InferenceRound | Project-1/minesweeper/minesweeper.py:212-258 | one pass of the loop: the safes and mines grow by exactly the cells the pairs said on entry give away (`SafesShownBy`, `MinesShownBy`); what is said becomes `Pass` of what was said (those cells marked, then `Extend`); new information exactly when that pass is `Informative` (anything given away or a new difference found); soundness and non-empty sentences are kept; no new information means the knowledge is settled |
| Mines.MinesweeperAI.SettledBy | Project-1/minesweeper/minesweeper.py:256-258 | a pass that marked nothing and added nothing leaves the knowledge settled |
| Mines.MinesweeperAI.NextPass | Project-1/minesweeper/minesweeper.py:212-258 | after `round` passes from `start`, one more pass gives the state after `round + 1` passes, and finds new information exactly when pass number `round` is `Informative` |
| Mines.MinesweeperAI.Infer | Project-1/minesweeper/minesweeper.py:210-258 | runs `passes` passes, at most `fuel` and exactly `fuel` unless it stopped on its own: what is said becomes `Passes(start, passes)` from what was said on entry; the safes and mines grow by exactly what those passes gave away (`SafesFound`, `MinesFound`); every pass but the last found new information; it stopped on its own exactly when the last pass found none, and then the knowledge is settled; soundness is kept |
| Mines.MinesweeperAI.Record | Project-1/minesweeper/minesweeper.py:183-208 | records the move and adds the cell to the safes; what is said becomes what was said with the cell marked safe, plus the count sentence's pair over the unknown neighbours when there are any; soundness is kept when the cell is safe and the count right |
| Mines.MinesweeperAI.AddKnowledge | Project-1/minesweeper/minesweeper.py:177-258 | records the move; the loop starts on what was said with the cell marked safe plus the count sentence's pair (`Recorded`); then what is said is `Passes(start, passes)`, the safes are the old ones, the cell and what the passes gave away, the mines the old ones and what the passes gave away; at most `fuel` passes, every one but the last finding something, and it stopped on its own exactly when the last found nothing, leaving the knowledge settled; soundness is kept for any true mine set with the cell safe and the count right |
| Mines.MinesweeperAI.MakeSafeMove | Project-1/minesweeper/minesweeper.py:260-272 | a known safe cell not yet played, and None exactly when every safe cell was played |
| Mines.MinesweeperAI.AllMoves | Project-1/minesweeper/minesweeper.py:282 | exactly the cells of the board |
| Mines.MinesweeperAI.MakeRandomMove | Project-1/minesweeper/minesweeper.py:274-288 | an on-board cell neither a known mine nor played, and None exactly when there is none |
| TicTacToe.InitialState | Project-0/Tic-Tac-Toe/tictactoe.py:13-19 | every square is empty |
| TicTacToe.PlayerToMove | Project-0/Tic-Tac-Toe/tictactoe.py:22-36 | X unless X has more marks than O |
| TicTacToe.XMovesFirst | Project-0/Tic-Tac-Toe/tictactoe.py:13-36 | on the initial board X moves, the counts are balanced, and every square is free |
| TicTacToe.PlayCounts | Project-0/Tic-Tac-Toe/tictactoe.py:57-65 | a move adds one mark of the player to move and none of the other |
| TicTacToe.TurnsAlternate | Project-0/Tic-Tac-Toe/tictactoe.py:22-67 | from a balanced board a move keeps the counts balanced and hands the turn to the other player |
| TicTacToe.EmptySquares | Project-0/Tic-Tac-Toe/tictactoe.py:39-50 | exactly the on-board squares holding no mark |
| TicTacToe.Actions | Project-0/Tic-Tac-Toe/tictactoe.py:39-50 | the scan collects exactly the empty squares |
| TicTacToe.Result | Project-0/Tic-Tac-Toe/tictactoe.py:53-67 | defined exactly for an in-range index (negative ones read as Python does) naming an empty square; that square then gets the mark of the player to move and every other square is kept |
| TicTacToe.PlayFillsOne | Project-0/Tic-Tac-Toe/tictactoe.py:53-67 | a move removes exactly its square from the free ones |
| TicTacToe.AllOf | Project-0/Tic-Tac-Toe/tictactoe.py:77 | a line equals `[player] * 3` exactly when each of its squares holds the player's mark |
| TicTacToe.LineOf | Project-0/Tic-Tac-Toe/tictactoe.py:75-91 | True exactly when the player fills a row, a column, the diagonal or the anti-diagonal |
| TicTacToe.Winner | Project-0/Tic-Tac-Toe/tictactoe.py:70-93 | X when X fills a line, otherwise O when O does, otherwise None |
| TicTacToe.Terminal | Project-0/Tic-Tac-Toe/tictactoe.py:96-110 | over exactly when there is a winner or no square is free |
| TicTacToe.Utility | Project-0/Tic-Tac-Toe/tictactoe.py:113-124 | 1 exactly when X wins, and 0 in every other case, an O win included |
| TicTacToe.IntendedUtility | Project-0/Tic-Tac-Toe/tictactoe.py:113-115 | 1 exactly when X wins, -1 exactly when O wins, 0 exactly when nobody has won |
| TicTacToe.OWinScoresZero | Project-0/Tic-Tac-Toe/tictactoe.py:117-124 | a board O has won scores 0 as written, where -1 is intended |
| TicTacToe.ScanBound | Project-0/Tic-Tac-Toe/tictactoe.py:134-154 | the running best of the scan is no worse than the sentinel and than every move scanned |
| TicTacToe.ScanReached | Project-0/Tic-Tac-Toe/tictactoe.py:134-154 | the running best is the sentinel or the value of a move scanned |
| TicTacToe.BestOfMoves | Project-0/Tic-Tac-Toe/tictactoe.py:131-155 | on an unfinished board the value is no worse than any move's and is the sentinel or some move's value |
| TicTacToe.ValueIsBest | Project-0/Tic-Tac-Toe/tictactoe.py:131-155 | a number no worse than every move, and equal to the sentinel or some move's value, is the value |
| TicTacToe.ValueWithin | Project-0/Tic-Tac-Toe/tictactoe.py:134-148 | with terminal scores inside (-5, 5) every value stays within the scores' bounds, so the sentinels are always beaten |
| TicTacToe.BestSoFarStep | Project-0/Tic-Tac-Toe/tictactoe.py:135-141 | comparing one more move (`minval > v` or `maxval < v`) keeps v the best so far and `optimal_move` a move reaching it |
| TicTacToe.BestSoFarDone | Project-0/Tic-Tac-Toe/tictactoe.py:134-142 | after every move is compared, v is the minimax value |
| TicTacToe.MaxValue | Project-0/Tic-Tac-Toe/tictactoe.py:131-142 | the maximizing value under the given scoring; the move, when any, reaches it; no move exactly on a finished board or when the sentinel -5 was never beaten |
| TicTacToe.MinValue | Project-0/Tic-Tac-Toe/tictactoe.py:144-155 | the minimizing value; the move, when any, reaches it; no move exactly on a finished board or when the sentinel 5 was never beaten |
| TicTacToe.Minimax | Project-0/Tic-Tac-Toe/tictactoe.py:127-166 | None exactly on a finished board; otherwise a free square whose value under `utility` is at least (for X) or at most (for O) that of every free square |

## Left out

- Printing, saving images, `main`, command-line handling and `__str__` are left out. They are I/O only.
- The crossword grid parser (`crossword.py`) is not part of this model. `Puzzle.WellFormed` states what the solver relies on from it:
  - slots lie inside the grid;
  - the overlap table covers every ordered pair of distinct slots;
  - an overlap is exactly the cell the two slots share.
- Random mine placement is replaced by a placement given as a parameter. The drawing loop (`while len(self.mines) != mines`) is not modelled.
- Set and dictionary iteration order is not modelled. Loops over a set pick any remaining element. Results that depend on the order are stated for every order:
  - which safe cell `make_safe_move` returns;
  - which cell `possible_moves.pop()` gives;
  - which of several equally good moves minimax keeps.
- Mines.MinesweeperAI.AddKnowledge: the `while True` loop runs under a `fuel` bound, because the source gives no termination argument. When the fuel runs out before the loop stops on its own, the result is not claimed to be settled. Soundness holds either way.
- Mines.MinesweeperAI.Infer: same fuel bound as AddKnowledge. What the run computes is stated for the passes actually made, however the loop ended.
- Generate.CrosswordCreator.AC3: True does not promise that no domain is empty, though the docstring (generate.py:157-158) says so. The code returns False only when a revision empties a domain; a slot with no neighbours whose domain node consistency emptied, or any empty slot no queued arc reaches, still gives True. The model states what the code does.
- Mines.MinesweeperAI.Differences: the pairs are collected as values first and turned into `Sentence` objects afterwards. The source creates a `Sentence` per candidate and compares it with `==`. The contents are the same.
- Generate.CrosswordCreator.Consistent: when a neighbour's word is too short to reach the shared cell, the source raises `IndexError`. The model counts this as a disagreement. It cannot happen once domains are node consistent.
- Generate.CrosswordCreator.LetterGrid: requires every letter to land inside the grid, which the parser guarantees for slot cells. The source would raise `IndexError`, or wrap a negative index, otherwise.
- Generate.CrosswordCreator.Solve: the result of the first `ac3` is ignored, as in the source. An empty domain is then found again by the search.
- TicTacToe.Minimax: optimality is stated for `utility` as written, which scores an O win like a draw (see Findings). `MaxValue` and `MinValue` are proved for any scoring, so `IntendedUtility` goes through them unchanged.
- Boards other than 3×3 are excluded by the `Board` type. The source only builds 3×3 boards.
- Mines.Minesweeper.IsMine: requires an in-range cell, where the source raises `IndexError` (minesweeper.py:53) for an index outside -n..n-1. The error path is not modelled.
- `result` raises an exception on an occupied square, or `IndexError` off the board. The model returns `None` in both cases.
- The other projects of the repository (PageRank, the sentence parser and the rest) are not part of this model.

## Findings

| source | as written | input that shows it | evidently intended | confidence | as-written member | corrected member |
|---|---|---|---|---|---|---|
| Project-0/Tic-Tac-Toe/tictactoe.py:121 | `elif win_player == 0:` compares the winner with the integer 0, so the `-1` branch can never be taken and a win by O scores 0, like a draw | the board with O on the whole top row, X at (1,0), (1,1) and (2,0), and the rest empty: `winner` is O, `utility` is 0 | `elif win_player == O:`, so that an O win scores -1 as the docstring says | not executed | TicTacToe.Utility, TicTacToe.OWinScoresZero | TicTacToe.IntendedUtility |
