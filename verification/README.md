# sudoku-js engine in Dafny

A model of the puzzle engine in `js/script.js` of sudoku-js, a browser Sudoku
game. The page's DOM, timers and storage calls are stripped away. What is left
is an immutable 81-cell board, with pure functions and a few methods over it.

- **Cells.** Each cell holds a text (`textContent`), a fixed flag
  (`unmodifiable`) and its pencil notes, in the order the page shows them.
- **Indexing and box centres** (`grid.dfy`):
  - `positionConversion`, `validPosition` and `flatTo2d`;
  - `closestGrid` over the nine centres, comparing squared distances;
  - `moveInDirection`.
- **Unit rules** (`rules.dfy`):
  - `checkRow`, `checkCol` and `checkGrid`;
  - `checkGame` and `checkSolution`;
  - `checkCoordinate`.
  - Each checker is proved equal to a declarative reference: no two non-empty
    texts in a unit are equal, and no text is longer than one character.
- **Conflicts** (`board.dfy`): `doesConflictExist` and its error counter,
  `deleteIntersections`, note toggling and `clearBoard`.
- **Solver** (`solver.dfy`): `findEmptySpace` and the randomised backtracker
  `backTrackMe`. The random candidate order is a nondeterministic choice.
- **Generator** (`shuffle.dfy`, `generate.dfy`):
  - `fisherYatesShuffle`, whose random indices are a parameter `js`;
  - `initializeGrid`.
- **Save format** (`save.dfy`):
  - `numberToSymbol` and `symbolToNum`;
  - `saveBoard` and `loadBoard`;
  - `getNotes`, `saveNotes`, `setNotes` and `loadNotes`.
- **Timer text** (`timefmt.dfy`): `secondsToTimeString`.
- **Game** (`play.dfy`): the game state is one record:
  - the board;
  - the undo stack `previousActions` and the redo stack `redoActions`;
  - `lastActionUndo`, `selectedCell`, `noteMode` and `paused`.
- **Handlers** (`play.dfy`): `handleKeydown`, `handleAction`, `undoAction`,
  `redoAction`, `checkWin`, `loadSavedGame`, and the page's buttons.
- **Game laws** (`gamelaws.dfy`): the laws that tie the handlers together:
  - an invariant that every input of `Input` keeps (keys, undo, redo, cell
    click, note toggle, pause, clear);
  - undo followed by redo, and redo followed by undo, restore the game, and
    so do n undos followed by n redos;
  - the given digits never change.

## Model

| member | source | states |
|---|---|---|
| Grid.JsRem | js/script.js:110-112 | JavaScript's `%` truncates: the remainder differs from the dividend by a multiple of b, lies in [0, b) for a non-negative dividend and in (-b, 0] for a negative one, which pins it down |
| Grid.PositionConversion | js/script.js:110-112 | for a non-negative index, row*len + col gives the index back, with 0 <= col < len; an index below len*len has row < len |
| Grid.ConversionIndexRoundTrip | js/script.js:110-122 | every flat index 0..80 converts to a valid position whose row-major index is the same number |
| Grid.ValidPositionIsConversionImage | js/script.js:110-122 | a position is valid exactly when it is the conversion of some flat index 0..80 |
| Grid.FlatTo2d | js/script.js:130-140 | the result is len rows of len entries; entry p of the flat array sits at the converted position of p; the positions past the array are left unset |
| Grid.ClosestFrom | js/script.js:308-324 | the scan over the centres returns the first centre of least distance, because it replaces the best only on a strict `<` |
| Grid.ClosestGrid | js/script.js:308-336 | the result is a nearest centre, the first among equals; a cell that is a centre gets itself back |
| Grid.OwnCenterStrictlyNearest | js/script.js:308-336 | for a cell on the board, every other centre is strictly farther than its own box's centre |
| Grid.ClosestGridIsOwnBox | js/script.js:308-336 | for a cell on the board, `closestGrid` is the centre (3*(x div 3)+1, 3*(y div 3)+1) of the cell's box |
| Grid.Move | js/script.js:173-191 | a move from a cell on the board stays on the board; it steps one cell in the direction exactly when that cell is on the board, and otherwise stays put |
| Grid.MoveThenOppositeReturns | js/script.js:173-191 | a move that was not blocked by the edge is undone by the move in the opposite direction |
| Rules.CheckUnit | js/script.js:245-257 | the scan with its `current` list succeeds exactly when no text in the unit is longer than one character and no two non-empty texts are equal |
| Rules.CheckRow | js/script.js:245-257 | true exactly when the cells of row x are valid by the reference rule |
| Rules.CheckCol | js/script.js:264-276 | true exactly when the cells of column y are valid by the reference rule |
| Rules.CheckGrid | js/script.js:284-300 | true exactly when the cells of the box containing (x, y) are valid by the reference rule |
| Rules.CheckGameFrom | js/script.js:342-349 | the loop from i on succeeds exactly when rows, columns and boxes i..8 are all valid |
| Rules.CheckGame | js/script.js:342-349 | true exactly when all 27 units are valid, and exactly when no two peers share a text and no text is too long |
| Rules.CheckSolution | js/script.js:355-364 | true exactly when no cell is empty and `checkGame` holds |
| Rules.AllUnitsIffNoClash | js/script.js:342-349 | all 27 unit checks together say the same as the peer-wise rule, in both directions |
| Rules.CheckCoordinate | js/script.js:199-238 | true exactly when the cell is empty, is unmodifiable, or no other cell of its row, column or box holds its text or a text longer than one character |
| Rules.CoordinateScansArePeers | js/script.js:199-238 | the three scans of `checkCoordinate` visit exactly the cell's peers |
| Rules.NoClashMeansNoConflict | js/script.js:199-238 | on a board that passes `checkGame`, `checkCoordinate` succeeds for every cell |
| Board.ToggleNote | js/script.js:692-709 | a note that is absent is appended; a present one is removed once; afterwards the note shows exactly when it did not before, and no other note changes |
| Board.ToggleTwice | js/script.js:692-709 | toggling the same note twice gives back the same set of notes, and the same sequence when the note was absent |
| Board.RemoveNote | js/script.js:633-684 | afterwards the note is gone, every other note is kept, and a cell without the note is untouched |
| Board.PeerStrip | js/script.js:633-684 | the note is removed from the target cell and every peer, all other notes stay, and no text or fixed flag changes |
| Board.DeleteIntersections | js/script.js:633-684 | the row, column and box passes together have the effect of removing the note from the cell and all its peers |
| Board.ClearBoardAsWritten | js/script.js:413-431 | clears every text and note but keeps every fixed flag, because line 427 sets a property on the text string rather than on the cell |
| Board.ClearBoard | js/script.js:413-431 | every cell becomes empty, note-free and modifiable |
| Board.ClearKeepsLocks | js/script.js:427 | the clear as written leaves a given cell empty but still locked, so it differs from the intended clear |
| Board.ConflictingIsClash | js/script.js:1337-1350 | the counted cell fails `checkCoordinate` exactly when it is modifiable, non-empty and a peer clashes with it |
| Board.ConflictCount | js/script.js:1337-1350 | the error counter is at most 81, and it is zero exactly when no modifiable cell clashes with a peer |
| Board.DoesConflictExist | js/script.js:1337-1350 | true exactly when some modifiable, non-empty cell clashes with a peer |
| Board.NoClashNoConflict | js/script.js:1337-1350 | a board that passes `checkGame` reports no conflict |
| Solver.FindEmptySpace | js/script.js:371-380 | returns (-1, -1) exactly when no cell is empty; otherwise the first empty cell in row-major order |
| Solver.CountEmpty | js/script.js:371-380 | the number of empty cells is zero exactly when the board is complete; filling an empty cell lowers it, which bounds the recursion |
| Solver.BackTrack | js/script.js:390-407 | succeeds exactly when some completion of the board with digits is a solution; on success the result solves the board and keeps every filled cell; on failure the board is unchanged |
| Solver.TryCandidate | js/script.js:395-404 | one candidate: a failure means no solution has that digit in that cell; a success returns a solution that keeps the board's filled cells |
| Solver.Admits | js/script.js:396-397 | the pruning test after a placement never throws away a solvable board |
| Solver.NoCandidateLeft | js/script.js:393-406 | when every digit has failed in the first empty cell, the board has no solution, which is why the function returns false |
| Solver.SolvableHasNoClash | js/script.js:390-407 | a board with a solution has no clash |
| Shuffle.ShuffleAsWritten | js/script.js:94-101 | the shuffle as written returns a permutation of its input |
| Shuffle.AsWrittenMovesLast | js/script.js:94-101 | as written, the last element always leaves its place, so the output is never the input |
| Shuffle.AsWrittenTwo | js/script.js:94-101 | as written, a two-element array is always swapped |
| Shuffle.AsWrittenSingle | js/script.js:94-101 | as written, a one-element array (whose one index is 0) comes back unchanged |
| Shuffle.AsWrittenIsFisherYatesOutcome | js/script.js:94-101 | every output of the shuffle as written is also an output of the corrected shuffle for some choice of indices |
| Shuffle.FisherYates | js/script.js:94-101 | the corrected shuffle, with j in [0, i], returns a permutation of its input |
| Shuffle.FisherYatesReachesAll | js/script.js:94-101 | every permutation of the input is the output of some choice of random indices |
| Generate.EraseCount | js/script.js:64-87 | the number of cells erased is 81 - hintNum, and none for more than 81 hints |
| Generate.ErasureOrder | js/script.js:64-87 | the erased positions are distinct cells of the board, as many as `EraseCount` |
| Generate.FillCleared | js/script.js:64-87 | solving the cleared board yields a complete solution of digits |
| Generate.InitializeGrid | js/script.js:64-87 | the erased cells are empty and modifiable; the others are fixed to the solution; exactly 81 - hintNum cells are erased; the puzzle has no clash and the solution completes it |
| Generate.PuzzleSolvable | js/script.js:64-87 | the generated puzzle is completed by its solution, so it is solvable |
| Generate.GivensCount | js/script.js:64-87 | the count of fixed cells is 81 minus the number of distinct erased positions |
| Save.NumberToSymbol | js/script.js:1278-1301 | the digit d maps to the d-th symbol of `!@#$%^&*(`, and every other text maps to '0' |
| Save.SymbolToNum | js/script.js:1308-1331 | a symbol maps to its digit, and any other character to "0" |
| Save.SymbolRoundTrip | js/script.js:1278-1331 | `symbolToNum(numberToSymbol(d))` is d for each digit, and `numberToSymbol(symbolToNum(s))` is s for each symbol |
| Save.EncodeCell | js/script.js:1184-1198 | a fixed cell is saved as its text; a modifiable one as one character, which is '0' exactly when the cell holds no digit |
| Save.DecodeCell | js/script.js:1204-1226 | '0' loads as an empty modifiable cell; a symbol as its digit, modifiable; any other character as a fixed cell holding that character |
| Save.LoadBoard | js/script.js:1204-1226 | a missing save leaves the board as it is; otherwise the cells the string covers are decoded from their characters, the others are cleared, and all notes go |
| Save.BoardRoundTrip | js/script.js:1184-1226 | a board of savable cells saves to 81 characters, and loading them gives back every text and fixed flag |
| Save.AsWrittenClearBreaksSave | js/script.js:413-431 | after the clear as written, a locked empty cell saves as the empty string, so the save is shorter than 81 characters; after the intended clear it is 81 |
| Save.GetNotes | js/script.js:556-568 | one cell's entry is at least two characters long and ends in a comma |
| Save.Split | js/script.js:1246-1253 | splitting on commas yields at least one part, and no part contains a comma |
| Save.SplitJoin | js/script.js:1231-1253 | splitting the comma-terminated join of comma-free parts gives the parts back, plus the empty tail after the last comma |
| Save.SetNotes | js/script.js:717-736 | the part ' ' changes nothing; otherwise the cell's notes become the old notes plus the digits of the part, each shown once |
| Save.LoadNotes | js/script.js:1246-1253 | a missing save leaves the board as it is; texts and fixed flags never change |
| Save.NotesRoundTrip | js/script.js:1231-1253 | the saved notes, loaded onto a board without notes, give every cell exactly its notes back |
| Save.SavedGameRoundTrip | js/script.js:1184-1253 | loading the saved board and then the saved notes gives back the saved board exactly |
| TimeFormat.NatToString | js/script.js:462-464 | a number's decimal text is non-empty, all digits, with no leading zero |
| TimeFormat.ParseNatToString | js/script.js:462-464 | reading the decimal text back gives the number |
| TimeFormat.SecondsToTimeString | js/script.js:462-464 | the text is minutes, ':' and two digits of seconds, the first of them at most 5 |
| TimeFormat.TimeStringRoundTrip | js/script.js:462-464 | the timer text determines the seconds it was made from |
| Play.HandleAction | js/script.js:1005-1034 | undoing writes the action's previous text and redoing its new text ('' for a removal); a toggle flips the note both ways; no fixed flag changes |
| Play.UndoneRedone | js/script.js:1005-1034 | undo and redo of one action are inverse on texts that show the matching state |
| Play.UndoAction | js/script.js:1039-1047 | a no-op on an empty stack; otherwise it moves the top action from the undo stack to the redo stack, sets `lastActionUndo`, and leaves no cell selected |
| Play.RedoAction | js/script.js:1052-1059 | a no-op on an empty stack; otherwise it moves the top action from the redo stack back to the undo stack and leaves no cell selected |
| Play.ToggleSelected | js/script.js:742-758 | records the toggle and flips that one note of the selected cell; no text changes |
| Play.SetSelected | js/script.js:979-983 | records the set with the cell's previous text, writes the digit, strips it from the notes of the cell and its peers, and pauses exactly when the board is now solved |
| Play.RemoveSelected | js/script.js:858-867 | records the removal with the previous text, empties that cell only, and keeps all notes |
| Play.HandleKeydown | js/script.js:960-994 | nothing happens while paused; note mode never changes |
| Play.ClearGame | js/script.js:413-431 | both stacks and the selection go, every cell becomes empty and modifiable, and the game is unpaused |
| Play.CheckWinPreserves | js/script.js:1137-1147 | `checkWin` pauses exactly when the board is solved and keeps the game invariant |
| Play.SolveForMe | js/script.js:1444-1454 | while paused nothing happens; otherwise notes and selection are cleared and the game pauses exactly when the board had a solution, which it now shows over the same filled cells; a full board with a clash is left unpaused with its texts, as at the backtracker's throw |
| Play.SolveThrows | js/script.js:390-399 | on a full board with a clash there is no solution; the game keeps its texts, stacks and fixed flags, loses its notes and selection, and stays unpaused |
| Play.SolveRuns | js/script.js:1444-1454 | on a board the backtracker accepts, the game pauses exactly when the board had a solution and then shows it over the same filled cells; otherwise the texts stay |
| Play.Solved | js/script.js:390-407 | the solver's texts are written onto the board, keeping fixed flags and clearing notes |
| Play.StartGame | js/script.js:1472-1482 | a hint count outside 0..80 changes nothing; otherwise a fresh game with exactly that many givens, no clash and a solution |
| Play.LoadSavedGame | js/script.js:1170-1179 | a saved board resets the stacks, selection and pause; without any save the game is unchanged |
| Play.SaveThenLoad | js/script.js:1170-1253 | loading what was saved restores the board exactly |
| Play.LoadPreserves | js/script.js:1170-1179 | loading a save keeps the game invariant |
| Play.OpenPage | js/script.js:1385-1540 | the page opens with an invariant game and empty stacks, paused exactly when the loaded board is solved; without a save it has exactly 30 givens and a solution |
| GameLaws.UndoPreserves | js/script.js:1039-1047 | undo keeps the game invariant: the redo stack is non-empty only after an undo, and both stacks fit the texts and edit only modifiable cells |
| GameLaws.RedoPreserves | js/script.js:1052-1059 | redo keeps the game invariant |
| GameLaws.UndoThenRedo | js/script.js:1039-1059 | undo then redo restores both stacks and every text; notes come back as sets, and exactly for non-toggle actions; no cell is selected afterwards |
| GameLaws.RedoThenUndo | js/script.js:1039-1059 | redo then undo restores both stacks and every text in the same sense |
| GameLaws.BoardRoundTrip | js/script.js:1005-1034 | undoing then redoing a shown action gives the board back; a toggle gives back the same set of notes |
| GameLaws.BoardRoundTripBack | js/script.js:1005-1034 | redoing then undoing an action recorded in this state gives the board back |
| GameLaws.KeydownPreserves | js/script.js:960-994 | every key keeps the game invariant |
| GameLaws.KeydownEndsRedo | js/script.js:965-968 | any key while unpaused empties the redo stack and clears `lastActionUndo` |
| GameLaws.DigitWrites | js/script.js:960-994 | a digit on a modifiable cell outside note mode writes it, records the set, removes the note from every peer, and pauses exactly on a solved board |
| GameLaws.BackspaceRemoves | js/script.js:977-979 | Backspace on a modifiable, non-empty selected cell empties that cell only, records the removal with the old text, and keeps every note and fixed flag |
| GameLaws.EmptyCellRefusesBackspace | js/script.js:977 | Backspace on an empty selected cell changes no cell and records nothing |
| GameLaws.ArrowMovesSelection | js/script.js:985-991 | an arrow key changes no cell and records nothing; it selects (0, 0) when no cell is selected and otherwise moves the selection as `moveInDirection` does |
| GameLaws.FixedCellRefuses | js/script.js:973-984 | outside note mode, a digit or Backspace on a fixed cell changes nothing and records nothing |
| GameLaws.NoteKeyToggles | js/script.js:960-994 | in note mode a digit toggles that note of the selected cell, fixed or not, and records the toggle; no text changes |
| GameLaws.AsWrittenClearLocksOut | js/script.js:413-431 | after the clear as written, a formerly given cell is empty yet refuses every digit; after the intended clear the digit is written |
| GameLaws.PerformPreserves | js/script.js:1385-1540 | every input of `Input` (keys, undo, redo, cell click, note toggle, pause, clear) keeps the game invariant |
| GameLaws.RunPreserves | js/script.js:1385-1540 | any sequence of inputs of `Input` keeps the game invariant |
| GameLaws.UndoKeepsGivens | js/script.js:1039-1047 | undo never changes which cells are fixed or their texts |
| GameLaws.RedoKeepsGivens | js/script.js:1052-1059 | redo never changes which cells are fixed or their texts |
| GameLaws.KeydownKeepsGivens | js/script.js:960-994 | a key never changes which cells are fixed or their texts |
| GameLaws.UndoTimes | js/script.js:1039-1047 | n undos in a row, for n up to the undo stack's height, keep the invariant and move n actions from the undo stack to the redo stack |
| GameLaws.RedoTimes | js/script.js:1052-1059 | n redos in a row, for n up to the redo stack's height, keep the invariant and move n actions back |
| GameLaws.UndoRedoTimes | js/script.js:1039-1059 | n undos followed by n redos restore both stacks, every text and fixed flag, and every cell's notes as a set |
| GameLaws.GivensNeverChange | js/script.js:960-1059 | without the clear button, no sequence of inputs changes the given cells |

## Left out

- DOM rendering is not modelled. This covers highlights, `show*`/`hide*`, focus, confetti, the game-won modal, dark mode and the `setTimeout` inside `selectCell`. It is presentation only.
- Timers are not modelled: `restartTimer`, `pauseTimer` and `resumeTimer` schedule `setInterval` work. Pausing is only the `paused` flag.
- `saveTime`, `loadTime` and the five-second autosave are not modelled. `localStorage` becomes string parameters (`savedBoard`, `savedNotes`), with "" standing for a missing entry.
- `Math.random` is not modelled. The backtracker's candidate order is a nondeterministic choice. The shuffle's indices are the parameter `js`, constrained to the range the code can produce.
- `dist` takes a square root. The model compares squared integer distances instead, which order the centres the same way.
- `clickCell` and `selectCell` are reduced to setting `selected`.
- Play.UndoAction: `selectCell` selects the action's cell and a 200 ms timer then clears the selection. The model takes the state after the timer, with no cell selected. The 200 ms in which the cell is still selected are not modelled. The same holds for Play.RedoAction.
- Play.HandleKeydown: a digit in note mode with no cell selected throws in the source after the action is pushed. The model only drops the redo stack.
- Play.StartGame: a hint count given as text that is not an integer is not modelled. The parameter is an integer.
- Save.LoadBoard: a saved string longer than 81 characters makes the source throw once it runs past the last row. The model keeps the 81 cells written before that and ignores the rest.
- Save.LoadBoard: the load runs the corrected clear. With a saved string of 1 to 80 characters, the cells past its end come back empty and modifiable. The source's clear as written keeps their fixed flags.
- Save.LoadNotes: a notes string with fewer than 81 parts makes `setNotes` throw on the first missing part, which aborts the rest of the page's load. The model keeps the remaining cells' notes.
- GameLaws.UndoThenRedo: undoing a set does not bring back the notes that `deleteIntersections` removed from its peers. The law is therefore stated on texts, fixed flags and the undo/redo stacks. Notes are compared as sets, and exactly only for non-toggle actions.
- Play.SolveForMe: the solve button leaves both stacks as they were, while the board now shows the solution. Its contract therefore does not claim the game invariant afterwards. On a full board with a clash the source throws out of the handler. The model returns the game as it stood at the throw.
- `clearSelectedCellNotes` and `getSelectedSudokuCell` are empty in the source. The conflict message text (`errorNumberToString`) is not modelled either.

## Findings

| source | as written | input that shows it | evidently intended | confidence | as-written member | corrected member |
|---|---|---|---|---|---|---|
| js/script.js:94-101 | `j = Math.floor(Math.random() * (arr.length - 1))` picks j in [0, len-2] for every i | any array of length 2: `[0, 1]` always becomes `[1, 0]`, and the last element never stays in place | a Fisher-Yates shuffle, j in [0, i], which can produce every permutation | not executed | Shuffle.ShuffleAsWritten, Shuffle.AsWrittenMovesLast, Shuffle.AsWrittenTwo | Shuffle.FisherYates, Shuffle.FisherYatesReachesAll |
| js/script.js:427 | `textContent.unmodifiable = false` sets a property on the text string, so the cell's `unmodifiable` flag is not reset | clear a board with a given cell, select that cell and type a digit: nothing is written, and the save string is shorter than 81 characters | every cell becomes modifiable after a clear | not executed | Board.ClearBoardAsWritten, Board.ClearKeepsLocks, Save.AsWrittenClearBreaksSave, GameLaws.AsWrittenClearLocksOut | Board.ClearBoard, Play.ClearGame |

The model's generator uses `Shuffle.FisherYates`, and the clear button uses `Board.ClearBoard`.
