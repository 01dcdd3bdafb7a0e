# EvaSudoku engine in Dafny

This project models the Sudoku engine of EvaSudoku and the game-state rules of its React hook:

- **Grid, peers and units** (`grid.dfy`, `logic.dfy`). A grid is 81 cells in row-major order, with 0 for an empty cell. Each cell has a row, a column and a box. Its peers are the other cells that share one of them. The units are the 9 rows, 9 columns and 9 boxes.
- **Candidates** (`candidates.dfy`). A cell's candidates are a bitmask with bit d set for each digit 1..9 that no peer holds. The module also models the popcount and the mask-to-digit-list conversion.
- **Backtracking solver** (`solver.dfy`). A depth-first search on an 81-cell array. Each step scans the cells in index order and picks the first empty cell with the fewest candidates, stopping at the first cell with a single candidate; an empty cell with no candidates met before that ends the branch. It writes digits in place and restores the cell when a branch fails. In generation mode it shuffles the digits first.
- **Solution counter** (`counter.dfy`). The same search, counting the full grids it reaches and stopping at a limit.
- **Logic-only solver** (`logic.dfy`). It repeats naked-single and hidden-single passes until a pass places nothing, and reports whether the grid ended up full and how many cells it filled.
- **Conflict validator** (`validate.dfy`). It flags every non-empty cell that shares a digit with a peer, and decides whether the player's grid is solved.
- **Generator** (`generator.dfy`). It builds a random solved grid, then removes clues in a shuffled order while exactly one solution remains. It then applies a clue-count window and rejects puzzles that the logic-only solver can finish.
- **Undo/redo history** (`history.dfy`). A past/present/future zipper of (value, notes) snapshots.
- **Game state** (`game.dfy`). The number-pad tally and the state updates of the hook: entering a digit, erasing, filling in the solution, selecting a cell, switching note mode, and undo/redo.

`Math.random` is an injected `Random.Rng` (a `draw` function and a call counter). Every property therefore holds for every sequence of random draws.

Modelling choices:
- A mask is a `nat` with the bit operations defined arithmetically. Masks here only use bits 1..9, so JavaScript's 32-bit bit operations agree with them.
- The pure parts of the engine are functions, specified by lemmas.
- Loops that update variables or arrays are methods proved against those functions.
- The hook's state is a class whose methods update its fields in place.

The solver and the counter are proved both sound and complete with respect to `Grid.IsCompletion`: a full grid of digits 1..9, free of clashes, that keeps every clue.

A clash-freedom claim about a result is only made when the input itself has no clash. The search checks new digits against their peers, but never checks the clues against each other. A full grid is returned unchanged as solved, even when its clues clash, and the counter counts it exactly once (`Solver.Solve`, `Solver.SolveInPlace`, `SolutionCount.CountSolutions`).

## Model

| member | source | states |
|---|---|---|
| Grid.IndexRoundTrip | lib/sudoku/types.ts:38-41 | for a cell 0..80, row, column and box are in 0..8 and cellIndex(row, col) gives the cell back |
| Grid.CellIndexRoundTrip | lib/sudoku/types.ts:38-41 | for row and column in 0..8, cellIndex is a cell whose row and column are those |
| Grid.PeersBelowSpec | lib/sudoku/types.ts:49-53 | the scan over cells below n collects exactly the peers below n, in increasing order |
| Grid.PeerSeqSpec | lib/sudoku/types.ts:45-56 | peers(i) holds exactly the cells j != i sharing a row, column or box with i, never i itself, strictly increasing (so without duplicates), all in 0..80 |
| Grid.PeerSymmetric | lib/sudoku/types.ts:50 | j is a peer of i if and only if i is a peer of j |
| Grid.Peers | lib/sudoku/types.ts:45-56 | the loop over the 81 cells returns the peer list, the same list on every call |
| Grid.RowCellsSpec | lib/sudoku/types.ts:59-61 | getRowCells(r) is 9 increasing cells, each in 0..80 with row r, and every cell of row r is among them |
| Grid.ColCellsSpec | lib/sudoku/types.ts:63-65 | getColCells(c) is 9 increasing cells, each in 0..80 with column c, and every cell of column c is among them |
| Grid.BoxCellAt | lib/sudoku/types.ts:67-77 | the k-th box cell lies in the box's start row plus k / 3 and its start column plus k % 3 |
| Grid.BoxCellsSpec | lib/sudoku/types.ts:67-77 | getBoxCells(b) is 9 increasing cells, each in 0..80 with box b, and every cell of box b is among them |
| Grid.GetBoxCells | lib/sudoku/types.ts:67-77 | the nested loops push exactly the box's cell list |
| Grid.ZeroCountBound | lib/sudoku/solver.ts:144 | a grid has at most as many empty cells as cells, and none exactly when every cell is filled |
| Grid.ZeroCountUpdate | lib/sudoku/generator.ts:39-47 | writing one cell changes the number of empty cells by what that cell was and becomes |
| Grid.EmptyGrid | lib/sudoku/generator.ts:6 | the all-zero grid is a valid grid without clashes |
| Candidates.SetBitHas | lib/sudoku/candidates.ts:9 | after `m \|= 1 << a`, bit d is set if and only if it was set before or d is a |
| Candidates.ToggleBitHas | app/hooks/useGame.ts:226 | after `m ^= 1 << a`, bit d is flipped when d is a and unchanged otherwise |
| Candidates.UsedMaskBits | lib/sudoku/candidates.ts:6-11 | the used mask has bit d set if and only if d is non-zero and some listed peer holds d |
| Candidates.FreeMaskBits | lib/sudoku/candidates.ts:13-18 | the candidate mask has bit d set if and only if 1 <= d <= 9 and d is not used; no bit from 10 up is set |
| Candidates.UsedDigits | lib/sudoku/candidates.ts:6-11 | the loop over the peers computes the used mask |
| Candidates.FreeDigits | lib/sudoku/candidates.ts:13-18 | the loop over 1..9 computes the free digits of the used mask |
| Candidates.CandidateMaskSpec | lib/sudoku/candidates.ts:4-20 | bit d of getCandidates(grid, i) is set if and only if the cell is empty, 1 <= d <= 9 and no peer holds d; only bits 1..9 can be set, and a filled cell gives 0 |
| Candidates.GetCandidates | lib/sudoku/candidates.ts:4-20 | returns the candidate mask of the cell |
| Candidates.BitCount | lib/sudoku/candidates.ts:23-30 | the shift loop returns the number of set bits |
| Candidates.PopCountZero | lib/sudoku/candidates.ts:23-30 | the bit count is 0 exactly for mask 0 |
| Candidates.PopCountIsBitCount | lib/sudoku/candidates.ts:23-30 | below 2^n the bit count is the number of positions 0..n-1 whose bit is set |
| Candidates.DigitsSpec | lib/sudoku/candidates.ts:33-39 | bitsToDigits(m) is strictly increasing, holds digits 1..9, holds x exactly when bit x is set, and has bitCount(m) <= 9 entries when only bits 1..9 are set |
| Candidates.BitsToDigits | lib/sudoku/candidates.ts:33-39 | the loop over 1..9 returns the digit list of the mask |
| Candidates.CandidateCountSpec | lib/sudoku/candidates.ts:23-39 | a cell's candidate count is at most 9, equals the length of its digit list, and is 0 on a filled cell |
| Candidates.PlaceCandidate | lib/sudoku/solver.ts:43-45 | writing a candidate into an empty cell keeps a valid grid that keeps every clue, and keeps a clash-free grid clash-free |
| Candidates.CompletionUsesCandidate | lib/sudoku/solver.ts:18-22 | every solution puts one of the cell's candidates in each empty cell |
| Random.Rng.Below | lib/sudoku/generator.ts:62 | `Math.floor(Math.random() * n)` is an index below n, taken from the next draw |
| Random.Shuffle | lib/sudoku/generator.ts:60-65 | the in-place Fisher-Yates shuffle leaves the array a permutation (same multiset) of its contents |
| Seqs.PermutationDistinct | lib/sudoku/generator.ts:30-31 | a permutation of a list without repeats has no repeats |
| Solver.CellCount | lib/sudoku/solver.ts:19-21 | the candidates and candidate count of one cell, at most 9 |
| Solver.SelectCell | lib/sudoku/solver.ts:14-32 | the minimum-remaining-values scan: Complete only for a full grid; DeadEnd at the first empty cell with no candidate, all earlier empty cells having at least 2; Branch at the first empty cell with the least count, stopping early at a count of 1 |
| Solver.CompletionNeedsCandidate | lib/sudoku/solver.ts:22 | an empty cell without candidates leaves the grid without solution |
| Solver.BranchExhausted | lib/sudoku/solver.ts:34-47 | every solution is reached through one of the (shuffled) candidate digits of the chosen cell |
| Solver.SolveInPlace | lib/sudoku/solver.ts:12-50 | true: the array is full and keeps every earlier cell (clash-free when the input was); false: the array is exactly as on entry and the input has no solution; a full input, clashing or not, gives true and is left unchanged |
| Solver.TryDigit | lib/sudoku/solver.ts:43-47 | one branch: write the digit and recurse; on failure restore the cell, and no solution has that digit there |
| Solver.Solve | lib/sudoku/solver.ts:6-10 | works on a copy; a result is a full grid keeping the clues, a solution when the input has no clash; null means there is no solution, and for a clash-free input null happens exactly when there is no solution; a full input, clashing or not, is returned as it is |
| SolutionCount.FilledCompletion | lib/sudoku/solver.ts:77-79 | a full clash-free grid is its own and only solution |
| SolutionCount.SolutionCounter.Search | lib/sudoku/solver.ts:57-90 | search() returns true exactly when the count reaches the limit; it counts distinct new full grids that keep the clues; when it returns false the grid is restored and every solution has been counted; a full grid is recorded once, as it is |
| SolutionCount.SolutionCounter.Record | lib/sudoku/solver.ts:77-80 | a full grid adds one to the count and is recorded; stop exactly when the count reaches the limit |
| SolutionCount.SolutionCounter.SearchDigits | lib/sudoku/solver.ts:82-89 | the loop over the candidate digits keeps the counts and the restored grid of search() |
| SolutionCount.SolutionCounter.SearchDigit | lib/sudoku/solver.ts:84-86 | write one digit and search; restore the cell unless the search stopped |
| SolutionCount.CountSolutions | lib/sudoku/solver.ts:53-94 | the count is the number of distinct full grids found, at most the limit (1 when the limit is below 1); below the limit every solution was found; for a clash-free input, 0 means no solution, and with limit >= 2, 1 means exactly one solution; a full grid, clashing or not, counts 1 with itself as the only grid found |
| SolutionCount.CountMeaning | lib/sudoku/solver.ts:53-94 | what a count of 0 or 1 means for a clash-free grid: no solution, or exactly one |
| Logic.UnitCellsSpec | lib/sudoku/solver.ts:148-170 | each of the 27 units is 9 increasing cells of the board, any two of which are peers |
| Logic.GetUnitCells | lib/sudoku/solver.ts:149-170 | the loops build the row cells for 0..8, the column cells for 9..17 and the box cells from 18 |
| Logic.DeducedPlace | lib/sudoku/solver.ts:111 | writing a candidate that every solution has in that cell fills one cell, keeps the clues, keeps clash-freedom and keeps every solution |
| Logic.DeducedTrans | lib/sudoku/solver.ts:103-142 | deductions compose, and their filled counts add |
| Logic.PossibleMask | lib/sudoku/solver.ts:129 | a digit can go in a cell exactly when the cell is empty and the digit's candidate bit is set |
| Logic.NakedSingleMask | lib/sudoku/solver.ts:108-111 | an empty cell has exactly one possible digit if and only if bitCount of its candidates is 1, and then bitsToDigits(cands)[0] is that digit |
| Logic.NakedSingleForced | lib/sudoku/solver.ts:110-111 | a naked single's digit is a candidate in 1..9, and every solution has it in that cell |
| Logic.NakedBelowDeduced | lib/sudoku/solver.ts:107-116 | the naked-single pass only fills empty cells with forced digits: it keeps clues, clash-freedom and every solution, and its filled count is the drop in empty cells |
| Logic.NakedBelowIdle | lib/sudoku/solver.ts:107-116 | a naked-single pass that fills nothing leaves the grid as it was, and no cell it scanned is a naked single |
| Logic.NakedSweep | lib/sudoku/solver.ts:107-116 | the loop over the 81 cells computes the naked-single pass, its fill count and the changed flag |
| Logic.ScanFromSpec | lib/sudoku/solver.ts:127-133 | the unit scan's count is monotone and its index is a possible cell; when d is not placed, no later cell holds d, and with a count of 1 the index is the only possible cell |
| Logic.ScanUnit | lib/sudoku/solver.ts:123-133 | the loop over a unit's cells, with its early break on a placed digit, computes (placed, possibleCount, possibleIdx) |
| Logic.DistinctBound | lib/sudoku/solver.ts:135 | a list of distinct values in 1..n has at most n entries (the pigeonhole bound behind hidden singles) |
| Logic.UnitHoldsDigit | lib/sudoku/solver.ts:135 | a full clash-free grid holds each digit in every unit |
| Logic.HiddenStepDeduced | lib/sudoku/solver.ts:135-139 | a hidden single (d not placed, exactly one possible cell) is forced: every solution has d there |
| Logic.HiddenUnitsDeduced | lib/sudoku/solver.ts:119-141 | the hidden-single pass over all units and digits is a deduction |
| Logic.HiddenUnit | lib/sudoku/solver.ts:120-140 | the loop over digits 1..9 in one unit computes that unit's hidden-single step |
| Logic.HiddenSweep | lib/sudoku/solver.ts:119-141 | the loop over the 27 units computes the hidden-single pass, its fill count and the changed flag |
| Logic.PassDeduced | lib/sudoku/solver.ts:104-141 | a whole pass, naked then hidden singles, is a deduction |
| Logic.PassIdle | lib/sudoku/solver.ts:103-104 | a pass that fills nothing leaves the grid as it was |
| Logic.PropagateSpec | lib/sudoku/solver.ts:103-142 | repeating passes until one fills nothing is a deduction whose count is the cells filled, and ends on a grid where a pass fills nothing |
| Logic.LogicOnlySpec | lib/sudoku/solver.ts:98-146 | the result only fills empty cells; filled is the drop in empty cells, at most the input's count; solved holds exactly when every empty cell was filled; clash-freedom and every solution are kept, and no naked single remains |
| Logic.LogicSolvedUnique | lib/sudoku/solver.ts:144-145 | when a clash-free grid is solved by logic alone, the result is a solution, and the only one |
| Logic.LogicOnlySolve | lib/sudoku/solver.ts:98-146 | the while (changed) loop returns exactly the solved flag and the fill count of the propagation |
| Validate.SeenStep | lib/sudoku/validate.ts:13-16 | visiting the pair (i, j) flags i and j exactly when they are peers holding the same non-zero digit |
| Validate.FlagRow | lib/sudoku/validate.ts:10-17 | the inner loop for cell i flags exactly the clashes of the pairs visited so far |
| Validate.GetConflicts | lib/sudoku/validate.ts:4-21 | 81 flags; flag i is set if and only if cell i is non-empty and some peer holds the same digit |
| Validate.ConflictPair | lib/sudoku/validate.ts:9-15 | empty cells are never flagged; both cells of a clashing pair are flagged |
| Validate.NoConflictIsNoClash | lib/sudoku/validate.ts:31 | no flag is set if and only if no two peers hold the same digit |
| Validate.TwoFivesFlagged | lib/sudoku/validate.ts:8-17 | two 5s at cells 0 and 1 of an empty grid flag exactly cells 0 and 1 |
| Validate.Merge | lib/sudoku/validate.ts:25 | the merged grid keeps every clue of the puzzle and shows the player's entry in every cell without a clue |
| Validate.MergeNoEntries | lib/sudoku/validate.ts:25 | with no entries the merged grid is the puzzle itself |
| Validate.MergeFilled | lib/sudoku/validate.ts:25-28 | the merged grid has no empty cell exactly when the player has an entry in every cell without a clue |
| Validate.SolvedIsCompletion | lib/sudoku/validate.ts:24-32 | the player's grid is solved exactly when the merged grid is a solution of the puzzle: full, clash-free and keeping every clue |
| Validate.IsSolved | lib/sudoku/validate.ts:24-32 | true if and only if the merged grid has no empty cell and no two peers in it hold the same digit |
| History.CreateInitialHistory | lib/sudoku/serialize.ts:42-48 | a timeline of the one given snapshot, with the cursor on it (nothing to undo or redo) |
| History.PushHistory | lib/sudoku/serialize.ts:50-56 | the timeline is cut after the present and the new snapshot appended; the cursor moves onto it and redo is emptied |
| History.Undo | lib/sudoku/serialize.ts:58-70 | null exactly when past is empty; otherwise the same timeline with the cursor one back, returning copies of the new present |
| History.Redo | lib/sudoku/serialize.ts:72-84 | null exactly when future is empty; otherwise the same timeline with the cursor one forward, returning copies of the new present |
| History.TimelineDetermines | lib/sudoku/serialize.ts:58-84 | a history is determined by its timeline and cursor |
| History.RedoAfterUndo | lib/sudoku/serialize.ts:58-84 | redo after a successful undo gives back the original history |
| History.UndoAfterRedo | lib/sudoku/serialize.ts:58-84 | undo after a successful redo gives back the original history |
| History.UndoAfterPush | lib/sudoku/serialize.ts:50-70 | undo right after a push restores the old present, with the pushed snapshot as the only redo |
| History.MovesKeepSize | lib/sudoku/serialize.ts:58-84 | undo and redo keep \|past\| + \|future\| |
| Game.DigitCountsStep | app/hooks/useGame.ts:50-51 | one more cell with digit v adds one to counts[v] and nothing else; an empty cell changes nothing |
| Game.ComputeDigitCounts | app/hooks/useGame.ts:47-54 | 10 counts: counts[0] is 0 and counts[d] is the number of merged cells holding d |
| Game.SumIncrement | app/hooks/useGame.ts:51 | incrementing one count adds one to the total |
| Game.DigitCountsTotal | app/hooks/useGame.ts:49-52 | the counts add up to the number of non-empty merged cells, at most 81 |
| Game.ToggleTwice | app/hooks/useGame.ts:226 | toggling the same note twice restores the cell's notes |
| Game.GameState.constructor | app/hooks/useGame.ts:157-171 | a new game: the puzzle as clues, no entries or notes, cell 40 selected, note mode off, not solved, and a history holding only the empty snapshot |
| Game.GameState.Commit | app/hooks/useGame.ts:229 | installs new entries and notes and pushes exactly one history entry for them |
| Game.GameState.EnterDigit | app/hooks/useGame.ts:218-245 | no change when solved or on a clue; in note mode the digit's note flips and the entry clears; otherwise the entry becomes the digit, or 0 if it held it, the notes clear and solved is recomputed; one history entry per accepted edit, and no other cell changes |
| Game.GameState.Erase | app/hooks/useGame.ts:247-260 | no change when solved or on a clue; otherwise only the cell's entry and notes clear, with one history entry |
| Game.GameState.FillSolution | app/hooks/useGame.ts:206-212 | entries are the solution off the clues and 0 on them, notes clear, solved is set, one history entry is pushed (with the previous notes); for a true solution of the clues the grid is then solved |
| Game.GameState.SelectCell | app/hooks/useGame.ts:214-216 | only the selection changes |
| Game.GameState.ToggleNotes | app/hooks/useGame.ts:262-264 | only note mode flips |
| Game.GameState.Undo | app/hooks/useGame.ts:266-278 | nothing when there is nothing to undo; otherwise the history steps back, entries and notes become the new present, and solved is recomputed |
| Game.GameState.Redo | app/hooks/useGame.ts:280-292 | nothing when there is nothing to redo; otherwise the history steps forward, entries and notes become the new present, and solved is recomputed |
| Generator.PatternPeers | lib/sudoku/generator.ts:5-8 | in the shifted-rows pattern grid, peers hold different digits |
| Generator.PatternNoClash | lib/sudoku/generator.ts:5-8 | the pattern grid is a full grid without clashes |
| Generator.EmptySolvable | lib/sudoku/generator.ts:5-8 | the empty grid has a solution, so solve(empty) cannot return null |
| Generator.GenerateSolvedGrid | lib/sudoku/generator.ts:5-8 | returns a full clash-free grid of digits 1..9 |
| Generator.SubgridNoClash | lib/sudoku/generator.ts:42 | a puzzle whose clues agree with a clash-free grid is clash-free |
| Generator.ShuffledCells | lib/sudoku/generator.ts:30-31 | the shuffled index list visits each cell 0..80 exactly once, and every cell is on it |
| Generator.NeededStaysNeeded | lib/sudoku/generator.ts:35-48 | a clue whose removal broke uniqueness still breaks it after other clues are cleared, so a clue the loop kept stays needed |
| Generator.TryRemove | lib/sudoku/generator.ts:38-47 | clear the cell; it stays cleared if and only if the puzzle with that cell cleared has exactly one solution, else it is restored; the clues still agree with the solution, which stays the only one |
| Generator.RemoveClues | lib/sudoku/generator.ts:33-48 | after the loop the clues agree with the solution, which is the only one; clueCount is the number of clues and is at least targetClues when targetClues <= 81; unless the loop stopped at the target, clearing any remaining clue would leave more than one solution |
| Generator.TryGeneratePuzzle | lib/sudoku/generator.ts:23-58 | the reduced puzzle has exactly one solution and at least targetClues clues (for targetClues <= 81), and unless it has only targetClues clues or fewer, every clue is needed for uniqueness; null is returned if and only if it has more than targetClues + 2 clues or the logic-only solver finishes it; otherwise the result is that puzzle with its solution, the only one |
| Generator.GenerateHardPuzzle | lib/sudoku/generator.ts:12-21 | a result is such a puzzle, found after fewer than maxAttempts rejected tries; null only after exactly maxAttempts tries (none when maxAttempts <= 0), each of which produced a puzzle tryGeneratePuzzle rejects: too many clues or finished by logic alone |

## Left out

- Persistence: `saveGame`, `loadGame`, `clearGame` and the hook's save effect and `loadFromSaved` wrap `localStorage` and JSON, which are I/O.
- The React machinery: `useState`, `useEffect`, `useCallback`, the timer, `setTimeout`, `Date.now()`, `startedAt` and `elapsed`. The hook keeps the game state and the history in two separate React states. The model keeps them in one object and performs each update at once.
- `newGame`, `startGame`, `goHome` and `resumeGame` only clear storage, switch screens and call the generator.
- The new-game constructor stands for the state that `generateNewGame` installs. It takes the puzzle and its solution as arguments.
- `generateEasyPuzzle` is not part of this model: it is imported by the hook but defined in a file outside the modelled sources.
- The distribution of `Math.random` is not modelled. Every result holds for any sequence of draws.
- The peers cache is global mutable state. `Grid.Peers` recomputes the list instead, and it returns the same list on every call.
- `getUnitCells` is only called with units 0..26. `Logic.UnitCellsSpec` states the unit facts for that range only.
- Game.ComputeDigitCounts: requires every merged cell to be in 0..9. The source would write outside the 10 counts for other values, and the hook never produces them.
- Game.GameState.EnterDigit: requires the digit to be in 1..9, which is what the number pad and the keyboard handler pass.
- Game.GameState.SelectCell: requires the index to be a cell 0..80, which is what the board passes.
- Game.GameState.FillSolution: the history entry it pushes holds the notes as they were before the fill. The state's notes are cleared, so the present history snapshot and the state disagree on notes until the next edit. This is modelled as written.
- Solver.Solve: the clash-freedom of a result is stated only for clash-free inputs. For an input whose clues already clash, the result can be a full grid that still clashes, as in the source. For a clashing input that is not full, the contract does not say whether null or a grid comes back.
- Default arguments (`randomize = false`, `limit = 2`, `targetClues = 28`, `maxAttempts = 50`) are explicit parameters in the model.
