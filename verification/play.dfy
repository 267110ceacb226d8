/**
 * The game state of js/script.js and the player's actions on it:
 * `handleKeydown`, `handleAction`, `undoAction`, `redoAction` and the
 * buttons wired up in the page's load handler.
 *
 * An action on the undo stack (`previousActions`) or the redo stack
 * (`redoActions`) is one of the source's arrays
 * `[command, prev, val, x, y]`: 'set', 'remove' or 'toggle-note'.
 */
module Play {
  import opened Basics
  import opened Grid
  import opened Rules
  import opened Board
  import opened Solver
  import opened Shuffle
  import opened Generate
  import opened Save

  datatype Action =
    | SetAction(prev: string, val: string, pos: Pos)
    | RemoveAction(prev: string, pos: Pos)
    | ToggleAction(key: char, pos: Pos)

  /** A key event: a character key, Backspace, or an arrow key. */
  datatype Key = Press(c: char) | Backspace | Arrow(dir: Direction)

  /**
   * The page's global state: the board, both stacks, `lastActionUndo`,
   * `selectedCell` (`None` for ''), `noteMode` and `paused`.
   */
  datatype Game = Game(
    board: Board,
    undo: seq<Action>,
    redo: seq<Action>,
    lastActionUndo: bool,
    selected: Option<Pos>,
    noteMode: bool,
    paused: bool)

  /** One of the digit keys of `editKeys`. */
  predicate IsEditDigit(c: char)
  {
    '1' <= c <= '9'
  }

  predicate OnBoard(p: Pos)
  {
    ValidPosition(p.x, p.y)
  }

  predicate ActionsOnBoard(s: seq<Action>)
  {
    forall k | 0 <= k < |s| :: OnBoard(s[k].pos)
  }

  /** The shape every state has: 81 cells, and every position on the board. */
  predicate Shape(g: Game)
  {
    && IsBoard(g.board)
    && ActionsOnBoard(g.undo)
    && ActionsOnBoard(g.redo)
    && (g.selected.Some? ==> OnBoard(g.selected.value))
  }

  lemma PushOnBoard(s: seq<Action>, a: Action)
    requires ActionsOnBoard(s) && OnBoard(a.pos)
    ensures ActionsOnBoard(s + [a])
  {
  }

  function Last(s: seq<Action>): Action
    requires s != []
  {
    s[|s| - 1]
  }

  // ----- What an action does to the texts -----

  /** The texts after the action is (re)done. */
  function Redone(v: seq<string>, a: Action): (w: seq<string>)
    requires |v| == CellCount && OnBoard(a.pos)
    ensures |w| == CellCount
  {
    match a
    case SetAction(_, val, pos) => v[Index(pos) := val]
    case RemoveAction(_, pos) => v[Index(pos) := ""]
    case ToggleAction(_, _) => v
  }

  /** The texts after the action is undone. */
  function Undone(v: seq<string>, a: Action): (w: seq<string>)
    requires |v| == CellCount && OnBoard(a.pos)
    ensures |w| == CellCount
  {
    match a
    case SetAction(prev, _, pos) => v[Index(pos) := prev]
    case RemoveAction(prev, pos) => v[Index(pos) := prev]
    case ToggleAction(_, _) => v
  }

  /** The texts show the action done. */
  predicate Shows(v: seq<string>, a: Action)
    requires |v| == CellCount && OnBoard(a.pos)
  {
    match a
    case SetAction(_, val, pos) => v[Index(pos)] == val
    case RemoveAction(_, pos) => v[Index(pos)] == ""
    case ToggleAction(_, _) => true
  }

  /** The texts show the state the action was recorded in. */
  predicate Before(v: seq<string>, a: Action)
    requires |v| == CellCount && OnBoard(a.pos)
  {
    match a
    case SetAction(prev, _, pos) => v[Index(pos)] == prev
    case RemoveAction(prev, pos) => v[Index(pos)] == prev
    case ToggleAction(_, _) => true
  }

  /** Undoing and redoing are inverse on texts that show the right state. */
  lemma UndoneRedone(v: seq<string>, a: Action)
    requires |v| == CellCount && OnBoard(a.pos)
    ensures Before(Undone(v, a), a) && Shows(Redone(v, a), a)
    ensures Shows(v, a) ==> Redone(Undone(v, a), a) == v
    ensures Before(v, a) ==> Undone(Redone(v, a), a) == v
  {
  }

  /**
   * The undo stack can be unwound: its top action shows in the texts, and
   * undoing it leaves texts the rest of the stack can be unwound from.
   */
  predicate UndoCoherent(v: seq<string>, s: seq<Action>)
    requires |v| == CellCount && ActionsOnBoard(s)
    decreases |s|
  {
    s == [] || (Shows(v, Last(s)) && UndoCoherent(Undone(v, Last(s)), s[..|s| - 1]))
  }

  /** The redo stack can be replayed: the same, in the other direction. */
  predicate RedoCoherent(v: seq<string>, s: seq<Action>)
    requires |v| == CellCount && ActionsOnBoard(s)
    decreases |s|
  {
    s == [] || (Before(v, Last(s)) && RedoCoherent(Redone(v, Last(s)), s[..|s| - 1]))
  }

  /** Every recorded edit of a text targets a modifiable cell. */
  predicate EditsModifiable(b: Board, s: seq<Action>)
    requires IsBoard(b) && ActionsOnBoard(s)
  {
    forall k | 0 <= k < |s| :: !s[k].ToggleAction? ==> !b[Index(s[k].pos)].fixed
  }

  /** No cell shows a note twice. */
  predicate NotesDistinct(b: Board)
    requires IsBoard(b)
  {
    forall p | 0 <= p < CellCount :: NoDup(b[p].notes)
  }

  /**
   * The invariant of a game: a non-empty redo stack means the last stack
   * operation was an undo, both stacks only edit modifiable cells, and both
   * stacks fit the texts on the board.
   */
  predicate WellFormed(g: Game)
  {
    && Shape(g)
    && NotesDistinct(g.board)
    && (g.redo != [] ==> g.lastActionUndo)
    && EditsModifiable(g.board, g.undo)
    && EditsModifiable(g.board, g.redo)
    && UndoCoherent(Values(g.board), g.undo)
    && RedoCoherent(Values(g.board), g.redo)
  }

  // ----- handleAction, undoAction, redoAction -----

  /**
   * `handleAction(..., undo)`: 'set' and 'remove' write their previous
   * text when undone and their new text when redone; 'toggle-note'
   * toggles the note both ways.
   */
  function HandleAction(b: Board, a: Action, undo: bool): (r: Board)
    requires IsBoard(b) && OnBoard(a.pos)
    ensures IsBoard(r)
    ensures Values(r) == if undo then Undone(Values(b), a) else Redone(Values(b), a)
    ensures forall q | 0 <= q < CellCount :: r[q].fixed == b[q].fixed
    ensures !a.ToggleAction? ==> forall q | 0 <= q < CellCount :: r[q].notes == b[q].notes
    ensures a.ToggleAction? ==> forall q | 0 <= q < CellCount ::
      r[q].notes == if q == Index(a.pos) then ToggleNote(b[q].notes, a.key) else b[q].notes
  {
    var i := Index(a.pos);
    match a
    case SetAction(prev, val, _) => SetValue(b, i, if undo then prev else val)
    case RemoveAction(prev, _) => SetValue(b, i, if undo then prev else "")
    case ToggleAction(key, _) => b[i := b[i].(notes := ToggleNote(b[i].notes, key))]
  }

  /**
   * `undoAction`: nothing on an empty stack; otherwise the top action is
   * undone and moves to the redo stack. `handleAction` selects the cell it
   * touches, and `selectCell` clears the selection again 200 ms later; the
   * model takes the state after that timer, with no cell selected.
   */
  function UndoAction(g: Game): (r: Game)
    requires Shape(g)
    ensures Shape(r)
    ensures g.undo == [] ==> r == g
    ensures g.undo != [] ==> r.undo == g.undo[..|g.undo| - 1] && r.redo == g.redo + [Last(g.undo)]
    ensures g.undo != [] ==> r.lastActionUndo && r.selected.None?
    ensures r.noteMode == g.noteMode && r.paused == g.paused
  {
    if g.undo == [] then g
    else
      var a := Last(g.undo);
      g.(board := HandleAction(g.board, a, true),
         undo := g.undo[..|g.undo| - 1],
         redo := g.redo + [a],
         lastActionUndo := true,
         selected := None)
  }

  /**
   * `redoAction`: nothing on an empty stack; otherwise the top action is
   * redone and moves back to the undo stack. As after an undo, no cell is
   * selected once `selectCell`'s timer has run.
   */
  function RedoAction(g: Game): (r: Game)
    requires Shape(g)
    ensures Shape(r)
    ensures g.redo == [] ==> r == g
    ensures g.redo != [] ==> r.redo == g.redo[..|g.redo| - 1] && r.undo == g.undo + [Last(g.redo)]
    ensures g.redo != [] ==> r.selected.None?
    ensures r.lastActionUndo == g.lastActionUndo
    ensures r.noteMode == g.noteMode && r.paused == g.paused
  {
    if g.redo == [] then g
    else
      var a := Last(g.redo);
      g.(board := HandleAction(g.board, a, false),
         redo := g.redo[..|g.redo| - 1],
         undo := g.undo + [a],
         selected := None)
  }

  // ----- handleKeydown -----

  /** The redo stack goes once an action follows an undo. */
  function ForgetRedo(g: Game): (r: Game)
  {
    if g.lastActionUndo then g.(redo := [], lastActionUndo := false) else g
  }

  /** A digit in note mode toggles that note of the selected cell and records it. */
  function ToggleSelected(g: Game, c: char, p: Pos): (r: Game)
    requires Shape(g) && OnBoard(p)
    ensures Shape(r)
    ensures r == g.(undo := r.undo, board := r.board)
    ensures r.undo == g.undo + [ToggleAction(c, p)]
    ensures Values(r.board) == Values(g.board)
    ensures forall q | 0 <= q < CellCount :: r.board[q].fixed == g.board[q].fixed
    ensures forall q | 0 <= q < CellCount ::
      r.board[q].notes == if q == Index(p) then ToggleNote(g.board[q].notes, c) else g.board[q].notes
  {
    var i := Index(p);
    PushOnBoard(g.undo, ToggleAction(c, p));
    g.(undo := g.undo + [ToggleAction(c, p)],
       board := g.board[i := g.board[i].(notes := ToggleNote(g.board[i].notes, c))])
  }

  /**
   * A digit on a modifiable cell: record it, write it, pause when the
   * board is solved (`checkWin`), then strip the note from the peers.
   */
  function SetSelected(g: Game, c: char, p: Pos): (r: Game)
    requires Shape(g) && OnBoard(p)
    ensures Shape(r)
    ensures r == g.(undo := r.undo, board := r.board, paused := r.paused)
    ensures r.undo == g.undo + [SetAction(g.board[Index(p)].value, [c], p)]
    ensures Values(r.board) == Values(g.board)[Index(p) := [c]]
    ensures r.paused <==> g.paused || CheckSolution(Values(r.board))
    ensures forall q | 0 <= q < CellCount :: r.board[q].fixed == g.board[q].fixed
    ensures forall q | 0 <= q < CellCount ::
      r.board[q].notes == if Peers(Index(p), q) then RemoveNote(g.board[q].notes, c) else g.board[q].notes
  {
    var a := SetAction(g.board[Index(p)].value, [c], p);
    PushOnBoard(g.undo, a);
    var b := WriteDigit(g.board, c, p);
    g.(undo := g.undo + [a],
       board := b,
       paused := g.paused || CheckSolution(Values(b)))
  }

  /** The board part of `SetSelected`: `setSelectedCellValue`, then `deleteIntersections`. */
  function WriteDigit(b: Board, c: char, p: Pos): (r: Board)
    requires IsBoard(b) && OnBoard(p)
    ensures IsBoard(r)
    ensures Values(r) == Values(b)[Index(p) := [c]]
    ensures forall q | 0 <= q < CellCount :: r[q].fixed == b[q].fixed
    ensures forall q | 0 <= q < CellCount ::
      r[q].notes == if Peers(Index(p), q) then RemoveNote(b[q].notes, c) else b[q].notes
  {
    var b1 := SetValue(b, Index(p), [c]);
    var b2 := DeleteIntersections(b1, c, p.x, p.y);
    WriteDigitCells(b, b1, b2, c, p);
    b2
  }

  lemma WriteDigitCells(b: Board, b1: Board, b2: Board, c: char, p: Pos)
    requires IsBoard(b) && OnBoard(p)
    requires b1 == SetValue(b, Index(p), [c])
    requires b2 == PeerStrip(b1, c, Index(p))
    ensures Values(b2) == Values(b)[Index(p) := [c]]
    ensures forall q | 0 <= q < CellCount :: b2[q].fixed == b[q].fixed
    ensures forall q | 0 <= q < CellCount ::
      b2[q].notes == if Peers(Index(p), q) then RemoveNote(b[q].notes, c) else b[q].notes
  {
    assert forall q | 0 <= q < CellCount :: Values(b2)[q] == Values(b)[Index(p) := [c]][q];
  }

  /** Backspace on a modifiable, non-empty cell: record it and empty the cell. */
  function RemoveSelected(g: Game, p: Pos): (r: Game)
    requires Shape(g) && OnBoard(p)
    ensures Shape(r)
    ensures r == g.(undo := r.undo, board := r.board)
    ensures r.undo == g.undo + [RemoveAction(g.board[Index(p)].value, p)]
    ensures Values(r.board) == Values(g.board)[Index(p) := ""]
    ensures forall q | 0 <= q < CellCount :: r.board[q].fixed == g.board[q].fixed
    ensures forall q | 0 <= q < CellCount :: r.board[q].notes == g.board[q].notes
  {
    var i := Index(p);
    PushOnBoard(g.undo, RemoveAction(g.board[i].value, p));
    g.(undo := g.undo + [RemoveAction(g.board[i].value, p)],
       board := SetValue(g.board, i, ""))
  }

  /**
   * `handleKeydown`. Nothing happens while paused. Any key drops the redo
   * stack after an undo. In note mode a digit toggles a note of the
   * selected cell; otherwise Backspace empties and a digit writes the
   * selected cell, if it is modifiable. An arrow selects the top-left cell
   * when none is selected, and moves the selection otherwise.
   * (A digit in note mode without a selection makes the source throw; here
   * it only drops the redo stack.)
   */
  function HandleKeydown(g: Game, k: Key): (r: Game)
    requires Shape(g)
    ensures Shape(r)
    ensures g.paused ==> r == g
    ensures r.noteMode == g.noteMode
  {
    if g.paused then g
    else
      var g1 := ForgetRedo(g);
      match k
      case Press(c) =>
        if !IsEditDigit(c) || g1.selected.None? then g1
        else if g1.noteMode then ToggleSelected(g1, c, g1.selected.value)
        else if g1.board[Index(g1.selected.value)].fixed then g1
        else SetSelected(g1, c, g1.selected.value)
      case Backspace =>
        if g1.selected.None? then g1
        else
          var i := Index(g1.selected.value);
          if g1.board[i].fixed || g1.board[i].value == "" then g1
          else RemoveSelected(g1, g1.selected.value)
      case Arrow(d) =>
        if g1.selected.None? then g1.(selected := Some(Pos(0, 0)))
        else g1.(selected := Some(Move(g1.selected.value, d)))
  }

  // ----- The buttons -----

  /** What the player can do besides starting a new game or asking for the solution. */
  datatype Input =
    | KeyDown(k: Key)      // a key, the erase button (Backspace) or a keypad key (its digit)
    | UndoButton
    | RedoButton
    | ClickCell(p: Pos)
    | NoteToggle
    | PauseButton
    | ClearButton

  predicate InputOnBoard(i: Input)
  {
    i.ClickCell? ==> OnBoard(i.p)
  }

  /**
   * `clearBoard`: both stacks, the notes, the selection and every text go,
   * every cell becomes modifiable, and the timer restarts unpaused.
   */
  function ClearGame(g: Game): (r: Game)
    requires Shape(g)
    ensures WellFormed(r)
    ensures forall p | 0 <= p < CellCount :: r.board[p] == EmptyCell
    ensures r.undo == [] && r.redo == [] && r.selected.None? && !r.paused
    ensures r.lastActionUndo == g.lastActionUndo && r.noteMode == g.noteMode
  {
    var b := ClearBoard(g.board);
    Game(b, [], [], g.lastActionUndo, None, g.noteMode, false)
  }

  /** One input, with the checks the page's handlers make before acting. */
  function Perform(g: Game, i: Input): (r: Game)
    requires Shape(g) && InputOnBoard(i)
    ensures Shape(r)
  {
    match i
    case KeyDown(k) => HandleKeydown(g, k)
    case UndoButton => if g.paused then g else UndoAction(g)
    case RedoButton => if g.paused then g else RedoAction(g)
    case ClickCell(p) => if g.paused then g else g.(selected := Some(p))
    case NoteToggle => g.(noteMode := !g.noteMode)
    case PauseButton => g.(paused := !g.paused)
    case ClearButton => ClearGame(g)
  }

  function Run(g: Game, inputs: seq<Input>): (r: Game)
    requires Shape(g)
    requires forall k | 0 <= k < |inputs| :: InputOnBoard(inputs[k])
    ensures Shape(r)
    decreases |inputs|
  {
    if inputs == [] then g else Run(Perform(g, inputs[0]), inputs[1..])
  }

  // ----- Solving, new games, saved games -----

  /** `checkWin`: the game pauses once the board is solved. */
  function CheckWin(g: Game): Game
    requires IsBoard(g.board)
  {
    g.(paused := g.paused || CheckSolution(Values(g.board)))
  }

  lemma CheckWinPreserves(g: Game)
    requires WellFormed(g)
    ensures WellFormed(CheckWin(g))
    ensures CheckWin(g).paused <==> g.paused || CheckSolution(Values(g.board))
  {
    var r := CheckWin(g);
    assert r.board == g.board && r.undo == g.undo && r.redo == g.redo;
  }

  /**
   * The solve-for-me button: nothing while paused; otherwise every note
   * and the selection go, the backtracker fills the board, and `checkWin`
   * pauses the game when it succeeded. The stacks are left as they are.
   * On a full board with a clash `findEmptySpace` gives (-1, -1) and
   * `backTrackMe` throws when it indexes the grid with it; the game is left
   * as it stood at the throw, notes and selection already cleared.
   */
  method SolveForMe(g: Game) returns (r: Game)
    requires Shape(g)
    ensures Shape(r)
    ensures g.paused ==> r == g
    ensures !g.paused ==> r.undo == g.undo && r.redo == g.redo && r.selected.None?
    ensures !g.paused ==> forall p | 0 <= p < CellCount :: r.board[p].fixed == g.board[p].fixed && r.board[p].notes == []
    ensures !g.paused ==> (r.paused <==> Solvable(Values(g.board)))
    ensures !g.paused && r.paused ==> CheckSolution(Values(r.board)) && DigitCompletion(Values(r.board), Values(g.board))
    ensures !g.paused && !r.paused ==> Values(r.board) == Values(g.board)
    ensures !g.paused && Complete(Values(g.board)) && !CheckSolution(Values(g.board)) ==>
      !r.paused && r.board == Solved(g.board, Values(g.board))
  {
    if g.paused {
      return g;
    }
    var v := Values(g.board);
    if FindEmptySpace(v) == Pos(-1, -1) && !CheckSolution(v) {
      r := SolveThrows(g);
    } else {
      r := SolveRuns(g);
    }
  }

  /** The solve button on a full board with a clash: the notes and the selection are gone when the backtracker throws. */
  function SolveThrows(g: Game): (r: Game)
    requires Shape(g) && !g.paused
    requires Complete(Values(g.board)) && !CheckSolution(Values(g.board))
    ensures Shape(r) && r.undo == g.undo && r.redo == g.redo && r.selected.None? && !r.paused
    ensures Values(r.board) == Values(g.board) && !Solvable(Values(g.board))
    ensures forall p | 0 <= p < CellCount :: r.board[p].fixed == g.board[p].fixed && r.board[p].notes == []
  {
    SolvableHasNoClash(Values(g.board));
    g.(board := Solved(g.board, Values(g.board)), selected := None)
  }

  /** The solve button on a board the backtracker accepts. */
  method SolveRuns(g: Game) returns (r: Game)
    requires Shape(g) && !g.paused
    requires !Complete(Values(g.board)) || CheckSolution(Values(g.board))
    ensures Shape(r) && r.undo == g.undo && r.redo == g.redo && r.selected.None?
    ensures forall p | 0 <= p < CellCount :: r.board[p].fixed == g.board[p].fixed && r.board[p].notes == []
    ensures r.paused <==> Solvable(Values(g.board))
    ensures r.paused ==> CheckSolution(Values(r.board)) && DigitCompletion(Values(r.board), Values(g.board))
    ensures !r.paused ==> Values(r.board) == Values(g.board)
  {
    var ok, solved := BackTrack(Values(g.board));
    var b := Solved(g.board, solved);
    r := g.(board := b, selected := None, paused := CheckSolution(solved));
  }

  /** The board after `clearNotes` and the backtracker: the texts of the solved grid, the flags kept. */
  function Solved(b: Board, solved: seq<string>): (r: Board)
    requires IsBoard(b) && IsGrid(solved)
    ensures IsBoard(r) && Values(r) == solved
    ensures forall p | 0 <= p < CellCount :: r[p].fixed == b[p].fixed && r[p].notes == []
  {
    var r := seq(CellCount, p requires 0 <= p < CellCount => Cell(solved[p], b[p].fixed, []));
    assert Values(r) == solved;
    r
  }

  /**
   * The start-game button: a hint count outside 0 .. 80 only shows an
   * error; otherwise `initializeGrid` deals a new puzzle with exactly that
   * many given cells, free of clashes and solvable, on a cleared game.
   */
  method StartGame(g: Game, hintNum: int, js: seq<int>) returns (r: Game)
    requires Shape(g) && FisherYatesChoices(js, CellCount)
    ensures hintNum < 0 || hintNum > 80 ==> r == g
    ensures 0 <= hintNum <= 80 ==> WellFormed(r) && r.undo == [] && r.redo == [] && r.selected.None? && !r.paused
    ensures 0 <= hintNum <= 80 ==> |Givens(r.board)| == hintNum
    ensures r.lastActionUndo == g.lastActionUndo && r.noteMode == g.noteMode
    ensures 0 <= hintNum <= 80 ==> NoClash(Values(r.board)) && Solvable(Values(r.board))
  {
    if hintNum < 0 || hintNum > 80 {
      return g;
    }
    var b, solution, erased := InitializeGrid(g.board, hintNum, js);
    forall p | 0 <= p < CellCount
      ensures b[p].notes == []
    {
      if p in erased {
        assert b[p] == EmptyCell;
      }
    }
    r := ClearGame(g).(board := b);
    FreshGame(r);
  }

  /** A game with empty stacks and notes without repeats is well formed. */
  lemma FreshGame(g: Game)
    requires Shape(g) && g.undo == [] && g.redo == []
    requires forall p | 0 <= p < CellCount :: g.board[p].notes == []
    ensures WellFormed(g)
  {
    assert NotesDistinct(g.board);
  }

  /**
   * `loadSavedGame`: a saved board string clears the game and is loaded
   * (an empty or missing one changes nothing), then the saved notes are
   * added. The saved time is left out.
   */
  function LoadSavedGame(g: Game, savedBoard: string, savedNotes: string): (r: Game)
    requires Shape(g)
    ensures Shape(r)
    ensures savedBoard != [] ==> r.undo == [] && r.redo == [] && r.selected.None? && !r.paused
    ensures savedBoard == [] ==> r == g.(board := r.board)
    ensures savedBoard == [] && savedNotes == [] ==> r == g
    ensures r.lastActionUndo == g.lastActionUndo && r.noteMode == g.noteMode
  {
    var g1 := if savedBoard == [] then g else ClearGame(g).(board := LoadBoard(g.board, savedBoard));
    g1.(board := LoadNotes(g1.board, savedNotes))
  }

  /**
   * A game saved by the autosave (`saveBoard` and `saveNotes`) and loaded
   * into any page comes back with the same board, notes included, on a
   * fresh history.
   */
  lemma SaveThenLoad(saved: Board, g: Game)
    requires Shape(g) && IsBoard(saved)
    requires forall p | 0 <= p < CellCount :: SavableCell(saved[p]) && DigitNotes(saved[p].notes)
    ensures var r := LoadSavedGame(g, SaveBoard(saved), SaveNotes(saved));
      r.board == saved && r.undo == [] && r.redo == [] && r.selected.None? && !r.paused
  {
    BoardRoundTrip(saved, g.board);
    assert SaveBoard(saved) != [];
    SavedGameRoundTrip(saved, g.board);
  }

  /** Loading a saved game keeps the game invariant. */
  lemma LoadPreserves(g: Game, savedBoard: string, savedNotes: string)
    requires WellFormed(g)
    ensures WellFormed(LoadSavedGame(g, savedBoard, savedNotes))
  {
    var r := LoadSavedGame(g, savedBoard, savedNotes);
    var g1 := if savedBoard == [] then g else ClearGame(g).(board := LoadBoard(g.board, savedBoard));
    assert NotesDistinct(g1.board);
    assert Values(r.board) == Values(g1.board);
    forall p | 0 <= p < CellCount
      ensures NoDup(r.board[p].notes)
    {
      assert NoDup(g1.board[p].notes);
    }
    assert forall k | 0 <= k < |r.undo| :: !r.undo[k].ToggleAction? ==> !r.board[Index(r.undo[k].pos)].fixed;
    assert forall k | 0 <= k < |r.redo| :: !r.redo[k].ToggleAction? ==> !r.board[Index(r.redo[k].pos)].fixed;
  }

  /**
   * Opening the page: a new puzzle with 30 hints is dealt, the saved game
   * (if any) replaces it, and `checkWin` pauses a solved board.
   */
  method OpenPage(b: Board, js: seq<int>, savedBoard: string, savedNotes: string) returns (r: Game)
    requires IsBoard(b) && FisherYatesChoices(js, CellCount)
    ensures WellFormed(r) && r.undo == [] && r.redo == [] && !r.lastActionUndo && !r.noteMode && r.selected.None?
    ensures r.paused <==> CheckSolution(Values(r.board))
    ensures savedBoard == [] && savedNotes == [] ==> |Givens(r.board)| == 30 && Solvable(Values(r.board))
  {
    var g0 := Game(b, [], [], false, None, false, false);
    var g1 := StartGame(g0, 30, js);
    var g2 := LoadSavedGame(g1, savedBoard, savedNotes);
    LoadPreserves(g1, savedBoard, savedNotes);
    CheckWinPreserves(g2);
    r := CheckWin(g2);
  }
}
