# Word search: substring index, lookup and backtracking fill

A word search is a square grid of N x N lower-case letters. A word is hidden
in it when it reads along a row, left to right, or down a column, top to
bottom. The system has two parts, and this project models both of them.

- **The solver** (`WordsearchSolver.py`) keeps the grid as one flat
  row-major string of length N*N.
  - It builds a substring index, `stringLookup`. The index maps every
    rightward run of 1 to 6 cells that stays inside its row to a
    `Location(index, 1)`. It maps every downward run of 2 to 6 cells that
    stays inside the grid to a `Location(index, N)`.
  - It answers `is_present(word)` with this index. It looks up the word's
    first six characters and fetches the candidate locations filed under
    them. For each candidate it applies a fit test, then compares the rest
    of the word against the grid.
  - `bruteforceCheck` is the simple reference: the word is a substring of
    some row or some column (`grid` and `rotatedGrid`).
- **The creator** (`WordsearchCreation.py`) builds a puzzle.
  - It starts from an N x N board of blanks (`generateBoard`).
  - It places words downward or rightward (`placeDown`, `placeRight`). A
    placement is rejected when the word runs off the board or meets a
    different letter. Each placement returns an undo closure.
  - It fills the board by recursive backtracking over the pending word list
    (`fillWords`).
  - Finally it covers every remaining blank with a random letter
    (`fillLooseLetters`).

## How the model is organised

| module (file) | what it holds |
|---|---|
| `Arith` (arith.dfy) | the few multiplication facts the index arithmetic needs |
| `PySlice` (pyslice.dfy) | Python's stepped slice `s[start:end:step]` with its end clamped |
| `Grid` (grid.dfy) | `Location`, rows and columns of the flat grid, rightward and downward runs |
| `SubstringIndex` (substring_index.dfy) | the index as the list of insertions `stringLookup` performs, replayed into a `map<string, seq<Location>>` |
| `WordsearchSolver` (wordsearch_solver.dfy) | `bruteforceCheck`, the lookup as a predicate and as the source's loop, and how the two relate |
| `SolverExamples` (solver_examples.dfy) | the 4 x 4 grid `"abcdefghijklmnop"` |
| `Board` (board.dfy) | the creator's board (`seq<seq<char>>`, `' '` for a blank) and `generateBoard` |
| `Placement` (placement.dfy) | `placeDown`, `placeRight` and their undo, as functions and as the source's loops |
| `Fill` (fill.dfy) | `Word` and `fillWords` as written |
| `CorrectedFill` (corrected_fill.dfy) | `fillWords` with both of its defects repaired |
| `FillExamples` (fill_examples.dfy) | both fills on the words "a" and "b" and a 1 x 1 board |
| `LooseLetters` (loose_letters.dfy) | `fillLooseLetters` |

How the source's Python is represented:

- **Grid side.** The grid side N is a parameter, with `|g| == N*N`. The
  source computes it with `int(math.sqrt(len(grid)))`.
- **Caches.** The lazily cached properties are pure functions.
- **The index.** `stringLookup` is modelled as the exact sequence of
  `(key, location)` insertions in the source's order, replayed by appending
  to the list under each key.
- **Mutation and exceptions.** Mutation is threaded through results. A
  placement returns `Option<Placed(board, undo)>`, where `None` stands for
  the `ValueError`. The undo closure becomes a record of the cells it
  rewrites and the string it writes there.
- **Randomness.** Randomness is a parameter.
  - `fillWords` draws from a `Strategy`. It holds the index
    `random.choice` picks, the two shuffled index lists, and whether
    `placeRight` is tried first at each cell. Each is a function of the
    call: the placements made on the way down to it and the pending list at
    its entry. Sibling calls follow different placements, so each call
    draws on its own. The shuffled lists are permutations of `range(N)`.
  - `fillLooseLetters` draws `choice(i, j)`, the alphabet index used at
    cell (i, j).
- **The observable outcome of `fillWords`.** The model keeps three things
  together: the returned list (or `None` for `ValueError`), the board as the
  calls leave it, and the pending list as the calls leave it.

The driver at `WordsearchSolver.py:169` computes whether `is_present` agrees
with `bruteforceCheck` on every word it tries. On the 4 x 4 grid
`"abcdefghijklmnop"` they disagree on `"cgko"` and `"bfjn"`. `bruteforceCheck`
finds both in their columns, and `is_present` rejects both at the down-fit
test on line 145. The model follows the code, proves both results, and
records the defect under Findings.

## Model

| member | source | states |
|---|---|---|
| `Grid.Rows` | WordsearchSolver.py:27-32 | definition of `grid`, the N row strings; characterised by `Grid.RowsColumnsTranspose` |
| `Grid.Columns` | WordsearchSolver.py:21-25 | definition of `rotatedGrid`, the N column strings `stringGrid[c::N]`; characterised by `Grid.RowsColumnsTranspose` |
| `Grid.RowsColumnsTranspose` | WordsearchSolver.py:21-32 | `rotatedGrid` is the transpose of `grid`: there are N rows and N columns of N letters each, and row r's c-th letter and column c's r-th letter are both the flat grid's letter at r*N + c |
| `PySlice.SliceExact` | WordsearchSolver.py:61 | a stepped slice with exactly n steps before its bound has n elements, and element k is `s[start + k*step]` |
| `PySlice.SliceDrop` | WordsearchSolver.py:151 | starting a stepped slice m steps later drops its first m elements |
| `PySlice.UnitSlice` | WordsearchSolver.py:58 | a slice with step 1 is the contiguous subsequence, clamped at the end of the string |
| `SubstringIndex.StringLookup` | WordsearchSolver.py:46-72 | definition of the index as the source's insertions replayed in order; characterised by `SubstringIndex.StringLookupExact` |
| `SubstringIndex.BuildFiles` | WordsearchSolver.py:66-70 | appending each insertion under its key files exactly the inserted (key, location) pairs, and no key is left with an empty list |
| `SubstringIndex.RightEntriesSound` | WordsearchSolver.py:57-58 | every right string of cell i is a rightward run from i of 2 to 6 cells that stays in i's row and spells the key |
| `SubstringIndex.DownEntriesSound` | WordsearchSolver.py:60-62 | every down string of cell i is a downward run from i of 2 to 6 cells that stays in the grid and spells the key |
| `SubstringIndex.CellEntriesSound` | WordsearchSolver.py:50-64 | every insertion made for cell i files, under its key, a location at i whose run spells that key |
| `SubstringIndex.CellEntriesComplete` | WordsearchSolver.py:50-64 | every run from cell i that the index promises (length 1 to 6 rightward, 2 to 6 downward) is inserted for cell i |
| `SubstringIndex.CellEntriesExact` | WordsearchSolver.py:50-64 | the insertions for cell i are exactly the runs from i that the index promises |
| `SubstringIndex.RightSliceRun` | WordsearchSolver.py:57-58 | `stringGrid[i:i+j]` is a rightward run of j cells from i, and the only one |
| `SubstringIndex.DownSliceRun` | WordsearchSolver.py:60-62 | `stringGrid[i:i+j*N:N]` is a downward run of j cells from i, and the only one |
| `SubstringIndex.AllEntriesExact` | WordsearchSolver.py:50-70 | the insertions for cells 0..count-1 are exactly the promised runs that start before count |
| `SubstringIndex.StringLookupExact` | WordsearchSolver.py:46-72 | a location is filed under key s exactly when the run from it spells s (index soundness and completeness), and no key has an empty list |
| `SubstringIndex.StringLookupLocations` | WordsearchSolver.py:46-72 | every filed location is a cell of the grid with offset 1 or N, and every key has 1 to 6 characters |
| `WordsearchSolver.BruteforceCheck` | WordsearchSolver.py:77-82 | definition of `bruteforceCheck`; characterised by `WordsearchSolver.BruteforceRuns` |
| `WordsearchSolver.Accepts` | WordsearchSolver.py:128-153 | definition of the per-candidate fit test and remainder comparison, under either down-fit rule; characterised by `WordsearchSolver.AcceptsRight` and `WordsearchSolver.AcceptsDown` |
| `WordsearchSolver.LookupWith` | WordsearchSolver.py:109-155 | definition of the lookup's answer, under either down-fit rule; characterised by `WordsearchSolver.LookupRuns` |
| `WordsearchSolver.IsPresent` | WordsearchSolver.py:109-155 | the loop answers True exactly when the prefix is a key and some location filed under it passes the fit test and the remainder comparison |
| `WordsearchSolver.ScanCandidates` | WordsearchSolver.py:128-155 | the candidate loop returns True exactly when some location in the list is accepted |
| `WordsearchSolver.RightRunInRow` | WordsearchSolver.py:27-32 | a rightward run from i is an occurrence in row i // N at column i % N |
| `WordsearchSolver.RowOccurrenceRun` | WordsearchSolver.py:27-32 | an occurrence at column k of row r is a rightward run from r*N + k |
| `WordsearchSolver.DownRunInColumn` | WordsearchSolver.py:21-25 | a downward run from i is an occurrence in column i % N at row i // N |
| `WordsearchSolver.ColumnOccurrenceRun` | WordsearchSolver.py:21-25 | an occurrence at row k of column c is a downward run from k*N + c |
| `WordsearchSolver.BruteforceRuns` | WordsearchSolver.py:77-82 | `bruteforceCheck(w)` holds exactly when w is spelled by a rightward or a downward run somewhere |
| `WordsearchSolver.BruteforceHasRun` | WordsearchSolver.py:79-81 | a word found in a row or a column is spelled by a run of the grid |
| `WordsearchSolver.AcceptsRight` | WordsearchSolver.py:138-153 | a rightward candidate whose prefix matches is accepted exactly when the whole word is a rightward run from it |
| `WordsearchSolver.AcceptsDown` | WordsearchSolver.py:143-153 | a downward candidate whose prefix matches is accepted exactly when the whole word is a downward run from it and the down-fit test passes |
| `WordsearchSolver.DownRemainderMatches` | WordsearchSolver.py:150-153 | the remainder comparison for a downward candidate holds exactly when the whole word runs downward from it |
| `WordsearchSolver.DownFullRun` | WordsearchSolver.py:151 | the full down slice is the prefix followed by the remainder slice, spells a downward run, and is the only downward run of that length |
| `WordsearchSolver.DownPrefixSplit` | WordsearchSolver.py:150-151 | the down slice of the whole word splits into the matched prefix and the slice from `checkStart` to `checkEnd` |
| `WordsearchSolver.AcceptedIsFound` | WordsearchSolver.py:123-154 | a location filed under the prefix that the loop accepts makes the lookup return True |
| `WordsearchSolver.LookupRuns` | WordsearchSolver.py:118-155 | under either down-fit rule, the lookup returns True exactly when w is non-empty and is a rightward run, or a downward run that passes the rule |
| `WordsearchSolver.RightRunIsFound` | WordsearchSolver.py:138-142 | every non-empty rightward run is found |
| `WordsearchSolver.PrefixRightRun` | WordsearchSolver.py:119 | the prefix of a rightward run is a rightward run from the same cell |
| `WordsearchSolver.LookupFindsRun` | WordsearchSolver.py:128-154 | a True answer comes from a non-empty rightward run, or from a downward run that passes the rule |
| `WordsearchSolver.AsWrittenDownFit` | WordsearchSolver.py:144-147 | for a run inside the grid, `checkEnd <= len(grid)` holds exactly when the run ends above the last row or starts in column 0 |
| `WordsearchSolver.AsWrittenLookupRuns` | WordsearchSolver.py:109-155 | `is_present(w)` holds exactly when w is non-empty and is a rightward run, or a downward run that ends above the last row or starts in column 0 |
| `WordsearchSolver.LookupSound` | WordsearchSolver.py:109-155 | whenever the lookup returns True, `bruteforceCheck` returns True |
| `WordsearchSolver.LookupFindsRowWords` | WordsearchSolver.py:57-58 | every non-empty word inside a row is found by `is_present` |
| `WordsearchSolver.LookupFindsColumnWords` | WordsearchSolver.py:134-147 | a non-empty word in column c from row r is found when r + len(w) < N or c == 0 |
| `WordsearchSolver.AsWrittenDisagreement` | WordsearchSolver.py:169 | `is_present` and `bruteforceCheck` disagree on a non-empty word exactly when it is spelled only downward, never rightward, and every downward run of it ends on the last row in a column other than 0 |
| `WordsearchSolver.CorrectedLookupAgrees` | WordsearchSolver.py:169 | with the corrected down-fit test, the lookup agrees with `bruteforceCheck` on every non-empty word |
| `WordsearchSolver.EmptyWord` | WordsearchSolver.py:119-126 | "" is never found by the lookup, while `bruteforceCheck("")` holds on every non-empty grid |
| `WordsearchSolver.LongWord` | WordsearchSolver.py:138-147 | a word longer than N is found by neither check |
| `SolverExamples.ColumnTwoMissed` | WordsearchSolver.py:145 | in `"abcdefghijklmnop"` (N = 4), "cgko" is in column 2 and found by `bruteforceCheck` and by the corrected lookup, but not by `is_present` |
| `SolverExamples.ColumnOneMissed` | WordsearchSolver.py:145 | likewise "bfjn" in column 1 |
| `SolverExamples.OtherColumnsFound` | WordsearchSolver.py:138-154 | "aeim" (column 0) and "bfj" (ends above the last row) are found by `is_present` |
| `SolverExamples.BentWordAbsent` | WordsearchSolver.py:77-82 | "abfj", which bends, is found by neither check |
| `SolverExamples.NoRightRun` | WordsearchSolver.py:27-32 | "abfj" is no rightward run of the example grid |
| `SolverExamples.NoDownRun` | WordsearchSolver.py:21-25 | "abfj" is no downward run of the example grid |
| `SolverExamples.LastRowColumnMissed` | WordsearchSolver.py:145 | each full column 1 to 3 of the example grid is found by `bruteforceCheck` and by the corrected lookup, but not by `is_present` |
| `SolverExamples.ColumnFound` | WordsearchSolver.py:77-82 | each full column 1 to 3 is found by `bruteforceCheck` and by the corrected lookup |
| `SolverExamples.ColumnSkipped` | WordsearchSolver.py:143-147 | each full column 1 to 3 is rejected by the down-fit test as written |
| `SolverExamples.OnlyRunsFromTop` | WordsearchSolver.py:27-32 | a 4-letter word starting with a letter of row 0, column 1 to 3, has no rightward run and runs downward only from that cell |
| `Board.GenerateBoard` | WordsearchCreation.py:18-19 | the board is N x N and every cell is blank, so every N x N board extends it |
| `Placement.Write` | WordsearchCreation.py:36-37 | definition of the writing loop's result; characterised by `Placement.WriteEffect` and `Placement.WriteUnique` |
| `Placement.Snapshot` | WordsearchCreation.py:29-34 | definition of the undo string under either snapshot rule (lines 55-60 for `placeRight`); it has one letter per letter of the word, and `Placement.UndoRestoresIff` says when it restores the board |
| `Placement.WriteEffect` | WordsearchCreation.py:36-37 | writing a word spells it from (i, j) in its direction and leaves every other cell unchanged |
| `Placement.WriteUnique` | WordsearchCreation.py:36-37 | any board that spells the word there and agrees outside the covered cells is the written board |
| `Placement.WriteTwice` | WordsearchCreation.py:36-41 | writing over the same cells twice keeps only the second string |
| `Placement.WriteUnchanged` | WordsearchCreation.py:36-37 | writing leaves the board unchanged exactly when each covered cell already holds its letter |
| `Placement.ApplyUndo` | WordsearchCreation.py:39-41 | running the undo spells the recorded string over the covered cells and changes nothing else |
| `Placement.Place` | WordsearchCreation.py:26-37 | a placement succeeds exactly when the word fits on the board and each covered cell is blank or holds the word's letter. It then spells the word there, keeps every other cell and every letter already placed, and records an undo over the same cells, which lie on the board |
| `Placement.PlaceEffect` | WordsearchCreation.py:36-37 | a placement that passes its checks spells the word, keeps the rest of the board and overwrites only blanks |
| `Placement.PlaceIdempotent` | WordsearchCreation.py:30-37 | placing a word where it already sits succeeds and leaves the board unchanged |
| `Placement.UndoRestoresIff` | WordsearchCreation.py:39-41 | an undo restores the board exactly when its string equals what the covered cells held |
| `Placement.RightUndoRestoresIff` | WordsearchCreation.py:60 | `placeRight`'s undo restores the board exactly when `board[i][k] == board[i][j+k]` for every k < len(word) |
| `Placement.DownUndoRestoresIff` | WordsearchCreation.py:34 | `placeDown`'s undo restores the board exactly when `board[i][r] == board[r][j]` for every covered row r |
| `Placement.RightUndoAtColumnZero` | WordsearchCreation.py:55-67 | `placeRight` at column 0 is always undone exactly |
| `Placement.CoveredUndoRestores` | WordsearchCreation.py:39-41 | with the undo string read from the covered cells, every undo restores the board |
| `Placement.UndoCorrupts` | WordsearchCreation.py:29-34 | on the 2 x 2 board with 'a' at (0, 0), placing "z" at (0, 1) in either direction and undoing it leaves 'a' in the formerly blank cell (0, 1) |
| `Placement.PlaceDown` | WordsearchCreation.py:21-43 | `placeDown` as loops: it fails exactly when the checks fail, leaving the board untouched; otherwise it returns the placed board and the undo of `Place` |
| `Placement.CheckDown` | WordsearchCreation.py:29-34 | the checking loop passes exactly when every covered cell is blank or holds the word's letter, and builds the undo string from `board[i][i+k]` |
| `Placement.WriteDown` | WordsearchCreation.py:36-37 | the writing loop sets (i+k, j) to `w[k]` and nothing else |
| `Placement.PlaceRight` | WordsearchCreation.py:46-69 | `placeRight` as loops: it fails exactly when the checks fail, leaving the board untouched; otherwise it returns the placed board and the undo of `Place` |
| `Placement.CheckRight` | WordsearchCreation.py:55-60 | the checking loop passes exactly when every covered cell is blank or holds the word's letter, and builds the undo string from `board[i][k]` |
| `Placement.WriteRight` | WordsearchCreation.py:62-63 | the writing loop sets (i, j+k) to `w[k]` and nothing else |
| `Fill.RowCandidates` | WordsearchCreation.py:83-86 | the attempts for one row are the cells of that row in the shuffled columns, each with both orientations |
| `Fill.Candidates` | WordsearchCreation.py:83-86 | the attempts are exactly the cells of `product(randomI, randomJ)`, each with both orientations |
| `Fill.ShuffleBounds` | WordsearchCreation.py:79-82 | a shuffle of `range(N)` holds only indices below N |
| `Fill.CallCandidatesOnBoard` | WordsearchCreation.py:79-82 | every attempted cell lies on the board |
| `Fill.RemoveFirst` | WordsearchCreation.py:78 | `words.remove(word)` takes one copy of the word out of the list and leaves the others |
| `Fill.FillWords` | WordsearchCreation.py:73-99 | an empty list gives `[]`. Otherwise the call empties part of the pending list. On success the list is empty, and the solution's words are drawn from the input. The first word drawn comes last, as `Word(word, i, j, isRight)` for one of the call's attempted cells, with `isRight` the orientation that attempt used and the word within the board in that direction |
| `Fill.TryCandidates` | WordsearchCreation.py:83-97 | the candidate loop only shrinks the pending list. On success it returns the deeper solution followed by the drawn word, at one of the loop's candidates, in that candidate's orientation and within the board |
| `Fill.FillWordsBlocked` | WordsearchCreation.py:99 | when the drawn word fits nowhere, the call raises with the board unchanged and the word removed from the list, wherever in the search it is made |
| `Fill.TryCandidatesBlocked` | WordsearchCreation.py:83-99 | a candidate loop in which no placement passes its checks changes neither the board nor the list |
| `CorrectedFill.FillWordsFixed` | WordsearchCreation.py:73-99 | with covered-cell undo and the list restored on failure, a failed call hands back the board it was given, and a solution places every input word exactly once (as multisets). Each placed word is spelled on the final board when no word holds a blank, the final board keeps the start board's letters, and the first word drawn comes last, at a cell where it fits |
| `CorrectedFill.TryFixed` | WordsearchCreation.py:83-97 | a failing corrected candidate loop leaves the board as it found it, because each failed deeper call does and the covered-cell undo then restores the board. A successful loop's solution holds the pending words plus the drawn word, each spelled where it says when no word holds a blank, with the drawn word last at a cell where it fits |
| `CorrectedFill.FixedBlocked` | WordsearchCreation.py:99 | a drawn word that fits nowhere makes the corrected fill fail with the board untouched |
| `CorrectedFill.TryFixedBlocked` | WordsearchCreation.py:83-99 | a corrected candidate loop in which no placement passes its checks fails with the board untouched |
| `CorrectedFill.AddPlacement` | WordsearchCreation.py:93 | appending the current placement to a deeper solution keeps every word spelled, because later placements only fill blanks |
| `CorrectedFill.SpellsKept` | WordsearchCreation.py:36-37 | a word without blanks stays spelled on any board that keeps every letter |
| `CorrectedFill.AllSpelledAppend` | WordsearchCreation.py:93 | a solution spelled on a board stays spelled with one more word that is spelled there |
| `CorrectedFill.RestLettersOnly` | WordsearchCreation.py:77-78 | the drawn word and the words left after it contain no blank when the input list contains none |
| `FillExamples.FirstChoicesValid` | WordsearchCreation.py:77-85 | "always the first word, row 0, column 0, down before right" is a valid set of choices on a 1 x 1 board: `[0]` is the only shuffle of `range(1)` |
| `FillExamples.FirstCandidates` | WordsearchCreation.py:83-86 | under those choices each call tries cell (0, 0) downward, then rightward |
| `FillExamples.PlaceOnCell` | WordsearchCreation.py:26-43 | "a" goes onto the blank 1 x 1 board in either direction, and the undo records the blank |
| `FillExamples.UndoOnCell` | WordsearchCreation.py:39-41 | that undo empties the cell again |
| `FillExamples.BlockedEverywhere` | WordsearchCreation.py:30-32 | a cell holding 'a' takes "b" in neither direction |
| `FillExamples.FillWordsDropsWord` | WordsearchCreation.py:76-97 | `fillWords` on ["a", "b"] and the 1 x 1 board returns a solution without "b" |
| `FillExamples.FirstDraw` | WordsearchCreation.py:77-86 | the first call draws "a", leaves ["b"] and tries (0, 0) down, then right |
| `FillExamples.DropsWordAttempts` | WordsearchCreation.py:86-97 | the downward attempt fails and empties the list; the rightward one then succeeds with only "a" |
| `FillExamples.DownAttemptFails` | WordsearchCreation.py:92-97 | after "a" goes down, the call for ["b"] raises with the list emptied, and the loop goes on with the blank board and an empty list |
| `FillExamples.DropsBlocked` | WordsearchCreation.py:77-99 | with 'a' on the only cell, the call for ["b"] raises and leaves the list empty, wherever in the search it is made |
| `FillExamples.RightAttemptSucceeds` | WordsearchCreation.py:92-95 | with the list empty, placing "a" rightward succeeds and the solution is that one placement |
| `FillExamples.FixedFillFailsWithoutDropping` | WordsearchCreation.py:73-99 | on the same input the corrected fill reports that no solution exists and hands back the blank board |
| `FillExamples.FixedFirstDraw` | WordsearchCreation.py:77-86 | the corrected fill makes the same first draw |
| `FillExamples.FixedAttempts` | WordsearchCreation.py:86-97 | in the corrected fill both attempts for "a" fail with "b" still pending, and the loop ends on the blank board |
| `FillExamples.FixedAttemptFails` | WordsearchCreation.py:92-97 | after "a" goes on the only cell, the corrected call for ["b"] fails, the loop goes on from the blank board, and the list is kept |
| `FillExamples.FixedBlockedCell` | WordsearchCreation.py:99 | with 'a' on the only cell, the corrected fill of ["b"] fails and hands the board back, wherever in the search it is made |
| `LooseLetters.FillLooseLetters` | WordsearchCreation.py:101-105 | afterwards no cell is blank, every letter already on the board is kept, and each blank cell (i, j) holds the drawn letter `choice(i, j)`; a board without blanks is returned unchanged |
| `LooseLetters.NextRow` | WordsearchCreation.py:103 | finishing row i is starting row i + 1 in the row-major order of `product(it, it)` |
| `LooseLetters.FilledAll` | WordsearchCreation.py:101-105 | once every cell has been visited, blanks hold drawn letters and every other cell is unchanged |
| `LooseLetters.LooseLettersKeepWords` | WordsearchCreation.py:101-105 | covering the blanks keeps every placed word of a solution spelled, provided no word holds a blank |

## Left out

- `generateWords`, `generateWordSearch` and the module-level run at `WordsearchCreation.py:120-121` are left out. They are driver code built on random numbers, and they have no behaviour to state.
- Every `print` is left out, because it is output only.
- The `__main__` block of `WordsearchSolver.py` (lines 157-172) is left out. It is a driver that prints results. Only its claim at line 169, that the two checks agree, is modelled, as `WordsearchSolver.AsWrittenDisagreement` and `WordsearchSolver.CorrectedLookupAgrees`.
- `letterLookup` and `lookupCheck` (`WordsearchSolver.py:34-44, 84-107`) are left out, because nothing in `is_present` reaches them.
- `math.sqrt` at line 12 is replaced by the parameter N with `|grid| == N*N`. A grid whose length is not a perfect square is outside the model.
- The lazy caches are left out. The index and the row and column views are computed on demand as pure functions.
- The `try/except IndexError` around the prefix (lines 118-121) is not modelled, because slicing does not raise. The prefix is `w[..min(6, |w|)]`.
- The exception-based control flow is modelled by results instead. A `ValueError` from a placement is `None`, and one from `fillWords` is a `None` solution.
- `random.choice`, `random.shuffle` and the letter drawn in `fillLooseLetters` become caller-supplied choices (`Fill.Strategy`, the `choice` function).
- Python's recursion limit is left out.
- `SubstringIndex.StringLookupExact`: states which locations each key lists, but not their order or how often each appears.
- `Fill.FillWords`: does not state where each placed word ends up on the final board, because the undo as written can overwrite placed letters. For the same reason it states only that the last word's cell and orientation were attempted and lie within the board. It does not state that the letter check passed on the board as it stood at that attempt, which earlier failed attempts may have altered.
- `CorrectedFill.FillWordsFixed`: states what a solution satisfies, but does not prove that `None` means no arrangement along the given choices exists.
- `LooseLetters.FillLooseLetters`: requires a square board, the shape `generateBoard` produces. The source would also accept rows longer than the board's height.

## Findings

| source | as written | input that shows it | evidently intended | confidence | as-written member | corrected member |
|---|---|---|---|---|---|---|
| WordsearchSolver.py:145 | the down-fit test compares `index + len(word)*N`, one row past the run's last cell, with `len(grid)`. It therefore rejects a column run that ends on the last row unless it starts in column 0 | N = 4, grid `"abcdefghijklmnop"`, word `"cgko"`: `bruteforceCheck` is True, `is_present` is False, so the agreement claimed at line 169 fails | accept the run when its last cell is on the grid, `index // N + len(word) <= N` | not executed | `SolverExamples.ColumnTwoMissed` | `WordsearchSolver.CorrectedLookupAgrees` |
| WordsearchCreation.py:34 | `placeDown` builds its undo string from `board[i][placement]`, cells of row i, instead of the covered cells `board[placement][j]` | 2 x 2 board with 'a' at (0, 0): place "z" down at (0, 1), then undo; cell (0, 1) becomes 'a' instead of blank | read `board[placement][j]` | not executed | `Placement.UndoCorrupts` | `Placement.CoveredUndoRestores` |
| WordsearchCreation.py:60 | `placeRight` builds its undo string from `board[i][placement-j]`, the first cells of the row, instead of the covered cells `board[i][placement]` | the same board: place "z" right at (0, 1), then undo; cell (0, 1) becomes 'a' | read `board[i][placement]` | not executed | `Placement.UndoCorrupts` | `Placement.CoveredUndoRestores` |
| WordsearchCreation.py:78 | `words.remove(word)` mutates the shared list. When a deeper call raises (lines 96-97), the words it removed stay removed, so a later success can omit input words | words `["a", "b"]`, 1 x 1 board, first choices everywhere: the result is `[Word("a", 0, 0, True)]` without "b" | restore the pending list when a deeper call fails | not executed | `FillExamples.FillWordsDropsWord` | `CorrectedFill.FillWordsFixed` |
