/**
 * What the player's actions of js/script.js guarantee: the game invariant
 * is kept by every input, undo and redo are inverse, a keystroke ends the
 * redo history, and the given cells of a puzzle never change.
 */
module GameLaws {
  import opened Basics
  import opened Grid
  import opened Rules
  import opened Board
  import opened Play

  // ----- Stacks -----

  lemma PopLast(s: seq<Action>)
    requires s != [] && ActionsOnBoard(s)
    ensures ActionsOnBoard(s[..|s| - 1])
    ensures s[..|s| - 1] + [Last(s)] == s
  {
  }

  /** Pushing onto a stack that fits the texts once the action is undone. */
  lemma UndoCoherentPush(v: seq<string>, s: seq<Action>, a: Action)
    requires |v| == CellCount && ActionsOnBoard(s) && OnBoard(a.pos)
    requires Shows(v, a) && UndoCoherent(Undone(v, a), s)
    ensures ActionsOnBoard(s + [a]) && UndoCoherent(v, s + [a])
  {
    PushOnBoard(s, a);
    assert (s + [a])[..|s|] == s;
  }

  lemma RedoCoherentPush(v: seq<string>, s: seq<Action>, a: Action)
    requires |v| == CellCount && ActionsOnBoard(s) && OnBoard(a.pos)
    requires Before(v, a) && RedoCoherent(Redone(v, a), s)
    ensures ActionsOnBoard(s + [a]) && RedoCoherent(v, s + [a])
  {
    PushOnBoard(s, a);
    assert (s + [a])[..|s|] == s;
  }

  /** Whether a stack edits only modifiable cells depends on the flags alone. */
  lemma EditsSameFlags(b: Board, b2: Board, s: seq<Action>)
    requires IsBoard(b) && IsBoard(b2) && ActionsOnBoard(s)
    requires forall q | 0 <= q < CellCount :: b2[q].fixed == b[q].fixed
    ensures EditsModifiable(b2, s) == EditsModifiable(b, s)
  {
  }

  lemma EditsPop(b: Board, s: seq<Action>)
    requires IsBoard(b) && s != [] && ActionsOnBoard(s) && EditsModifiable(b, s)
    ensures ActionsOnBoard(s[..|s| - 1]) && EditsModifiable(b, s[..|s| - 1])
    ensures !Last(s).ToggleAction? ==> !b[Index(Last(s).pos)].fixed
  {
  }

  lemma EditsPush(b: Board, s: seq<Action>, a: Action)
    requires IsBoard(b) && ActionsOnBoard(s) && OnBoard(a.pos) && EditsModifiable(b, s)
    requires !a.ToggleAction? ==> !b[Index(a.pos)].fixed
    ensures ActionsOnBoard(s + [a]) && EditsModifiable(b, s + [a])
  {
    PushOnBoard(s, a);
  }

  /** A board operation that keeps the flags and the distinct notes keeps the stacks' edit rule. */
  lemma NotesAfterAction(b: Board, a: Action, undo: bool)
    requires IsBoard(b) && OnBoard(a.pos) && NotesDistinct(b)
    ensures NotesDistinct(HandleAction(b, a, undo))
  {
    var r := HandleAction(b, a, undo);
    forall q | 0 <= q < CellCount
      ensures NoDup(r[q].notes)
    {
      assert NoDup(b[q].notes);
    }
  }

  // ----- undoAction and redoAction keep the invariant -----

  /** Undo keeps the game invariant. */
  lemma UndoPreserves(g: Game)
    requires WellFormed(g)
    ensures WellFormed(UndoAction(g))
  {
    if g.undo != [] {
      var a := Last(g.undo);
      var v := Values(g.board);
      var r := UndoAction(g);
      var rest := g.undo[..|g.undo| - 1];
      NotesAfterAction(g.board, a, true);
      EditsPop(g.board, g.undo);
      EditsSameFlags(g.board, r.board, rest);
      EditsPush(g.board, g.redo, a);
      EditsSameFlags(g.board, r.board, g.redo + [a]);
      UndoneRedone(v, a);
      RedoCoherentPush(Undone(v, a), g.redo, a);
    }
  }

  /** Redo keeps the game invariant. */
  lemma RedoPreserves(g: Game)
    requires WellFormed(g)
    ensures WellFormed(RedoAction(g))
  {
    if g.redo != [] {
      var a := Last(g.redo);
      var v := Values(g.board);
      var r := RedoAction(g);
      var rest := g.redo[..|g.redo| - 1];
      NotesAfterAction(g.board, a, false);
      EditsPop(g.board, g.redo);
      EditsSameFlags(g.board, r.board, rest);
      EditsPush(g.board, g.undo, a);
      EditsSameFlags(g.board, r.board, g.undo + [a]);
      UndoneRedone(v, a);
      UndoCoherentPush(Redone(v, a), g.undo, a);
    }
  }

  // ----- Undo and redo are inverse -----

  /**
   * Undo followed by redo gives the game back: the same texts, flags and
   * stacks, and the same notes in every cell. Only a toggled note may come
   * back in another place of its container; every other action restores
   * the board exactly. No cell is selected afterwards.
   */
  lemma UndoThenRedo(g: Game)
    requires WellFormed(g) && g.undo != []
    ensures var h := RedoAction(UndoAction(g));
      && h.undo == g.undo && h.redo == g.redo
      && Values(h.board) == Values(g.board)
      && (forall q | 0 <= q < CellCount ::
            h.board[q].fixed == g.board[q].fixed && NoteSet(h.board[q].notes) == NoteSet(g.board[q].notes))
      && (!Last(g.undo).ToggleAction? ==> h.board == g.board)
      && h.lastActionUndo && h.selected.None?
      && h.noteMode == g.noteMode && h.paused == g.paused
  {
    var a := Last(g.undo);
    var u := UndoAction(g);
    var h := RedoAction(u);
    PopLast(g.undo);
    assert Last(u.redo) == a && u.redo[..|u.redo| - 1] == g.redo;
    UndoneRedone(Values(g.board), a);
    BoardRoundTrip(g.board, a);
  }

  /**
   * Redo followed by undo gives the game back in the same sense; the redo
   * stack fits the texts, so the undone text is the one before the redo.
   */
  lemma RedoThenUndo(g: Game)
    requires WellFormed(g) && g.redo != []
    ensures var h := UndoAction(RedoAction(g));
      && h.undo == g.undo && h.redo == g.redo
      && Values(h.board) == Values(g.board)
      && (forall q | 0 <= q < CellCount ::
            h.board[q].fixed == g.board[q].fixed && NoteSet(h.board[q].notes) == NoteSet(g.board[q].notes))
      && (!Last(g.redo).ToggleAction? ==> h.board == g.board)
      && h.lastActionUndo && h.selected.None?
      && h.noteMode == g.noteMode && h.paused == g.paused
  {
    var a := Last(g.redo);
    var u := RedoAction(g);
    var h := UndoAction(u);
    PopLast(g.redo);
    assert Last(u.undo) == a && u.undo[..|u.undo| - 1] == g.undo;
    UndoneRedone(Values(g.board), a);
    BoardRoundTripBack(g.board, a);
  }

  /** The board half of `UndoThenRedo`: the action is shown, so undoing and redoing it restores the cell. */
  lemma BoardRoundTrip(b: Board, a: Action)
    requires IsBoard(b) && OnBoard(a.pos) && NotesDistinct(b) && Shows(Values(b), a)
    ensures var h := HandleAction(HandleAction(b, a, true), a, false);
      && Values(h) == Values(b)
      && (forall q | 0 <= q < CellCount ::
            h[q].fixed == b[q].fixed && NoteSet(h[q].notes) == NoteSet(b[q].notes))
      && (!a.ToggleAction? ==> h == b)
  {
    var h := HandleAction(HandleAction(b, a, true), a, false);
    UndoneRedone(Values(b), a);
    if a.ToggleAction? {
      ToggleTwice(b[Index(a.pos)].notes, a.key);
    } else {
      assert forall q | 0 <= q < CellCount :: h[q] == b[q];
    }
  }

  /** The board half of `RedoThenUndo`. */
  lemma BoardRoundTripBack(b: Board, a: Action)
    requires IsBoard(b) && OnBoard(a.pos) && NotesDistinct(b) && Before(Values(b), a)
    ensures var h := HandleAction(HandleAction(b, a, false), a, true);
      && Values(h) == Values(b)
      && (forall q | 0 <= q < CellCount ::
            h[q].fixed == b[q].fixed && NoteSet(h[q].notes) == NoteSet(b[q].notes))
      && (!a.ToggleAction? ==> h == b)
  {
    var h := HandleAction(HandleAction(b, a, false), a, true);
    UndoneRedone(Values(b), a);
    if a.ToggleAction? {
      ToggleTwice(b[Index(a.pos)].notes, a.key);
    } else {
      assert forall q | 0 <= q < CellCount :: h[q] == b[q];
    }
  }

  // ----- handleKeydown -----

  /** After an undo, any key ends the redo history; otherwise there was none. */
  lemma ForgetRedoClears(g: Game)
    requires WellFormed(g)
    ensures WellFormed(ForgetRedo(g))
    ensures ForgetRedo(g).redo == [] && !ForgetRedo(g).lastActionUndo
    ensures ForgetRedo(g).undo == g.undo && ForgetRedo(g).board == g.board
  {
  }

  /** A toggled note keeps the invariant. */
  lemma TogglePreserves(g: Game, c: char, p: Pos)
    requires WellFormed(g) && OnBoard(p)
    ensures WellFormed(ToggleSelected(g, c, p))
  {
    var r := ToggleSelected(g, c, p);
    var a := ToggleAction(c, p);
    forall q | 0 <= q < CellCount
      ensures NoDup(r.board[q].notes)
    {
      assert NoDup(g.board[q].notes);
    }
    EditsSameFlags(g.board, r.board, g.undo);
    EditsSameFlags(g.board, r.board, g.redo);
    EditsPush(g.board, g.undo, a);
    EditsSameFlags(g.board, r.board, g.undo + [a]);
    UndoCoherentPush(Values(g.board), g.undo, a);
  }

  /** A digit written into a modifiable cell keeps the invariant once the redo stack is gone. */
  lemma SetPreserves(g: Game, c: char, p: Pos)
    requires WellFormed(g) && OnBoard(p) && g.redo == [] && !g.board[Index(p)].fixed
    ensures WellFormed(SetSelected(g, c, p))
  {
    var r := SetSelected(g, c, p);
    var a := SetAction(g.board[Index(p)].value, [c], p);
    SetNotesDistinct(g.board, r.board, c, p);
    EditsPush(g.board, g.undo, a);
    EditsSameFlags(g.board, r.board, g.undo + [a]);
    SetCoherent(Values(g.board), Values(r.board), g.undo, a);
  }

  lemma SetNotesDistinct(b: Board, b2: Board, c: char, p: Pos)
    requires IsBoard(b) && IsBoard(b2) && OnBoard(p) && NotesDistinct(b)
    requires forall q | 0 <= q < CellCount ::
      b2[q].notes == if Peers(Index(p), q) then RemoveNote(b[q].notes, c) else b[q].notes
    ensures NotesDistinct(b2)
  {
    forall q | 0 <= q < CellCount
      ensures NoDup(b2[q].notes)
    {
      assert NoDup(b[q].notes);
    }
  }

  /** A recorded write whose previous text is the text before it fits on top of a fitting stack. */
  lemma SetCoherent(v: seq<string>, w: seq<string>, s: seq<Action>, a: Action)
    requires |v| == CellCount && ActionsOnBoard(s) && OnBoard(a.pos) && !a.ToggleAction?
    requires UndoCoherent(v, s)
    requires a.prev == v[Index(a.pos)]
    requires w == Redone(v, a)
    ensures ActionsOnBoard(s + [a]) && UndoCoherent(w, s + [a])
  {
    UndoneRedone(v, a);
    UndoCoherentPush(w, s, a);
  }

  /** Emptying a modifiable cell keeps the invariant once the redo stack is gone. */
  lemma RemovePreserves(g: Game, p: Pos)
    requires WellFormed(g) && OnBoard(p) && g.redo == [] && !g.board[Index(p)].fixed
    ensures WellFormed(RemoveSelected(g, p))
  {
    var r := RemoveSelected(g, p);
    var a := RemoveAction(g.board[Index(p)].value, p);
    EditsPush(g.board, g.undo, a);
    EditsSameFlags(g.board, r.board, g.undo + [a]);
    SetCoherent(Values(g.board), Values(r.board), g.undo, a);
  }

  /** `handleKeydown` keeps the game invariant. */
  lemma KeydownPreserves(g: Game, k: Key)
    requires WellFormed(g)
    ensures WellFormed(HandleKeydown(g, k))
  {
    if !g.paused {
      var g1 := ForgetRedo(g);
      ForgetRedoClears(g);
      if g1.selected.Some? {
        var p := g1.selected.value;
        match k
        case Press(c) =>
          if IsEditDigit(c) {
            if g1.noteMode {
              TogglePreserves(g1, c, p);
            } else if !g1.board[Index(p)].fixed {
              SetPreserves(g1, c, p);
            }
          }
        case Backspace =>
          if !g1.board[Index(p)].fixed && g1.board[Index(p)].value != "" {
            RemovePreserves(g1, p);
          }
        case Arrow(d) =>
      }
    }
  }

  /**
   * Every keystroke while the game runs leaves the redo stack empty: after
   * an undo the key drops it, and otherwise it was empty already.
   */
  lemma KeydownEndsRedo(g: Game, k: Key)
    requires WellFormed(g) && !g.paused
    ensures HandleKeydown(g, k).redo == [] && !HandleKeydown(g, k).lastActionUndo
  {
    ForgetRedoClears(g);
  }

  /**
   * A digit on the selected modifiable cell, outside note mode: the cell
   * shows the digit and nothing else changes text, the write is recorded
   * with the cell's previous text, no peer keeps the digit as a note, and
   * the game pauses exactly when the board is now solved (`checkWin`).
   */
  lemma DigitWrites(g: Game, c: char)
    requires WellFormed(g) && !g.paused && !g.noteMode && IsEditDigit(c)
    requires g.selected.Some? && !g.board[Index(g.selected.value)].fixed
    ensures var r := HandleKeydown(g, Press(c));
      var i := Index(g.selected.value);
      && Values(r.board) == Values(g.board)[i := [c]]
      && r.undo == g.undo + [SetAction(g.board[i].value, [c], g.selected.value)]
      && (forall q | 0 <= q < CellCount && Peers(i, q) :: c !in r.board[q].notes)
      && (r.paused <==> CheckSolution(Values(r.board)))
  {
    ForgetRedoClears(g);
  }

  /**
   * An arrow key changes no cell and records nothing: it selects the
   * top-left cell when none is selected, and otherwise moves the selection
   * one step, unless that step would leave the board.
   */
  lemma ArrowMovesSelection(g: Game, d: Direction)
    requires WellFormed(g) && !g.paused
    ensures var r := HandleKeydown(g, Arrow(d));
      && r.board == g.board && r.undo == g.undo
      && r.selected == Some(if g.selected.None? then Pos(0, 0) else Move(g.selected.value, d))
  {
  }

  /** A digit or Backspace on a fixed cell, outside note mode, changes no cell and records nothing. */
  lemma FixedCellRefuses(g: Game, k: Key)
    requires WellFormed(g) && !g.noteMode && !k.Arrow?
    requires g.selected.Some? && g.board[Index(g.selected.value)].fixed
    ensures HandleKeydown(g, k).board == g.board && HandleKeydown(g, k).undo == g.undo
  {
  }

  /**
   * Backspace on the selected cell when it is modifiable and shows a digit,
   * in note mode or not: the text goes, the removal is recorded with the
   * text it removed, and no note changes.
   */
  lemma BackspaceRemoves(g: Game)
    requires WellFormed(g) && !g.paused && g.selected.Some?
    requires !g.board[Index(g.selected.value)].fixed && g.board[Index(g.selected.value)].value != ""
    ensures var r := HandleKeydown(g, Backspace);
      var i := Index(g.selected.value);
      && Values(r.board) == Values(g.board)[i := ""]
      && r.undo == g.undo + [RemoveAction(g.board[i].value, g.selected.value)]
      && (forall q | 0 <= q < CellCount :: r.board[q].fixed == g.board[q].fixed && r.board[q].notes == g.board[q].notes)
  {
    ForgetRedoClears(g);
  }

  /** Backspace on an empty cell removes nothing and records nothing. */
  lemma EmptyCellRefusesBackspace(g: Game)
    requires WellFormed(g) && g.selected.Some? && g.board[Index(g.selected.value)].value == ""
    ensures HandleKeydown(g, Backspace).board == g.board && HandleKeydown(g, Backspace).undo == g.undo
  {
  }

  /**
   * In note mode a digit toggles that note of the selected cell, fixed or
   * not: it shows afterwards exactly when it did not before, the other
   * notes and every text stay, and the toggle is recorded.
   */
  lemma NoteKeyToggles(g: Game, c: char)
    requires WellFormed(g) && !g.paused && g.noteMode && IsEditDigit(c) && g.selected.Some?
    ensures var r := HandleKeydown(g, Press(c));
      var i := Index(g.selected.value);
      && Values(r.board) == Values(g.board)
      && (c in r.board[i].notes <==> c !in g.board[i].notes)
      && (forall d | d != c :: d in r.board[i].notes <==> d in g.board[i].notes)
      && r.undo == g.undo + [ToggleAction(c, g.selected.value)]
  {
    ForgetRedoClears(g);
    assert NoDup(g.board[Index(g.selected.value)].notes);
  }

  /**
   * After the clear as written, a cell that was given in the puzzle still
   * refuses digits, although it is empty; after the intended clear the
   * digit is written.
   */
  lemma AsWrittenClearLocksOut(b: Board, p: Pos, c: char)
    requires IsBoard(b) && OnBoard(p) && b[Index(p)].fixed && IsEditDigit(c)
    ensures var g := Game(ClearBoardAsWritten(b), [], [], false, Some(p), false, false);
      HandleKeydown(g, Press(c)).board == g.board && g.board[Index(p)].value == ""
    ensures var g := Game(ClearBoard(b), [], [], false, Some(p), false, false);
      HandleKeydown(g, Press(c)).board[Index(p)].value == [c]
  {
    var g := Game(ClearBoard(b), [], [], false, Some(p), false, false);
    assert Values(HandleKeydown(g, Press(c)).board)[Index(p)] == [c];
  }

  // ----- Every input -----

  /** Clicking, toggling note mode and pausing keep the invariant, and so does the clear. */
  lemma PerformPreserves(g: Game, i: Input)
    requires WellFormed(g) && InputOnBoard(i)
    ensures WellFormed(Perform(g, i))
  {
    match i
    case KeyDown(k) => KeydownPreserves(g, k);
    case UndoButton => UndoPreserves(g);
    case RedoButton => RedoPreserves(g);
    case ClickCell(p) =>
    case NoteToggle =>
    case PauseButton =>
    case ClearButton =>
  }

  /** Any sequence of inputs keeps the invariant. */
  lemma {:induction false} RunPreserves(g: Game, inputs: seq<Input>)
    requires WellFormed(g)
    requires forall k | 0 <= k < |inputs| :: InputOnBoard(inputs[k])
    ensures WellFormed(Run(g, inputs))
    decreases |inputs|
  {
    if inputs != [] {
      PerformPreserves(g, inputs[0]);
      RunPreserves(Perform(g, inputs[0]), inputs[1..]);
    }
  }

  /** The given cells of a board: their flags, and their texts. */
  predicate SameGivens(b: Board, b2: Board)
    requires IsBoard(b) && IsBoard(b2)
  {
    forall q | 0 <= q < CellCount ::
      b2[q].fixed == b[q].fixed && (b[q].fixed ==> b2[q].value == b[q].value)
  }

  /** No input but the clear touches a given cell. */
  lemma PerformKeepsGivens(g: Game, i: Input)
    requires WellFormed(g) && InputOnBoard(i) && !i.ClearButton?
    ensures SameGivens(g.board, Perform(g, i).board)
  {
    match i
    case KeyDown(k) =>
      KeydownKeepsGivens(g, k);
    case UndoButton =>
      UndoKeepsGivens(g);
    case RedoButton =>
      RedoKeepsGivens(g);
    case ClickCell(p) =>
    case NoteToggle =>
    case PauseButton =>
  }

  lemma KeydownKeepsGivens(g: Game, k: Key)
    requires WellFormed(g) && InputOnBoard(KeyDown(k))
    ensures SameGivens(g.board, Perform(g, KeyDown(k)).board)
  {
    if !g.paused {
      ForgetRedoClears(g);
    }
  }

  lemma UndoKeepsGivens(g: Game)
    requires WellFormed(g)
    ensures SameGivens(g.board, Perform(g, UndoButton).board)
  {
    if !g.paused && g.undo != [] {
      EditsPop(g.board, g.undo);
    }
  }

  lemma RedoKeepsGivens(g: Game)
    requires WellFormed(g)
    ensures SameGivens(g.board, Perform(g, RedoButton).board)
  {
    if !g.paused && g.redo != [] {
      EditsPop(g.board, g.redo);
    }
  }

  /**
   * Whatever the player types, clicks, undoes or redoes, the cells given
   * in the puzzle keep their texts and stay unmodifiable, until the board
   * is cleared.
   */
  lemma {:induction false} GivensNeverChange(g: Game, inputs: seq<Input>)
    requires WellFormed(g)
    requires forall k | 0 <= k < |inputs| :: InputOnBoard(inputs[k]) && !inputs[k].ClearButton?
    ensures SameGivens(g.board, Run(g, inputs).board)
    decreases |inputs|
  {
    if inputs != [] {
      var g1 := Perform(g, inputs[0]);
      PerformKeepsGivens(g, inputs[0]);
      PerformPreserves(g, inputs[0]);
      GivensNeverChange(g1, inputs[1..]);
    }
  }

  // ----- Several undos, then as many redos -----

  /**
   * Two games that differ at most in the order of notes inside a cell, in
   * the selection and in `lastActionUndo`.
   */
  ghost predicate Alike(g: Game, h: Game)
    requires Shape(g) && Shape(h)
  {
    && Values(g.board) == Values(h.board)
    && (forall q | 0 <= q < CellCount ::
          g.board[q].fixed == h.board[q].fixed && NoteSet(g.board[q].notes) == NoteSet(h.board[q].notes))
    && g.undo == h.undo && g.redo == h.redo
    && g.noteMode == h.noteMode && g.paused == h.paused
  }

  /** The undo button pressed n times. */
  function UndoTimes(g: Game, n: nat): (r: Game)
    requires WellFormed(g) && n <= |g.undo|
    ensures WellFormed(r) && |r.undo| == |g.undo| - n && |r.redo| == |g.redo| + n
    decreases n
  {
    if n == 0 then g
    else
      UndoPreserves(g);
      UndoTimes(UndoAction(g), n - 1)
  }

  /** The redo button pressed n times. */
  function RedoTimes(g: Game, n: nat): (r: Game)
    requires WellFormed(g) && n <= |g.redo|
    ensures WellFormed(r) && |r.redo| == |g.redo| - n && |r.undo| == |g.undo| + n
    decreases n
  {
    if n == 0 then g
    else
      var h := RedoTimes(g, n - 1);
      RedoPreserves(h);
      RedoAction(h)
  }

  /** Toggling a note gives the same note set for cells showing the same notes. */
  lemma ToggleSameSet(ns: seq<char>, ms: seq<char>, d: char)
    requires NoDup(ns) && NoDup(ms) && NoteSet(ns) == NoteSet(ms)
    ensures NoteSet(ToggleNote(ns, d)) == NoteSet(ToggleNote(ms, d))
  {
    assert forall c :: c in ns <==> c in NoteSet(ns);
    assert forall c :: c in ms <==> c in NoteSet(ms);
  }

  /** One action, undone or redone, keeps two alike boards alike. */
  lemma ActionAlike(g: Game, h: Game, a: Action, undo: bool)
    requires WellFormed(g) && WellFormed(h) && Alike(g, h) && OnBoard(a.pos)
    ensures var b, c := HandleAction(g.board, a, undo), HandleAction(h.board, a, undo);
      && Values(b) == Values(c)
      && forall q | 0 <= q < CellCount :: b[q].fixed == c[q].fixed && NoteSet(b[q].notes) == NoteSet(c[q].notes)
  {
    if a.ToggleAction? {
      var i := Index(a.pos);
      ToggleSameSet(g.board[i].notes, h.board[i].notes, a.key);
    }
  }

  lemma UndoAlike(g: Game, h: Game)
    requires WellFormed(g) && WellFormed(h) && Alike(g, h)
    ensures Alike(UndoAction(g), UndoAction(h))
  {
    if g.undo != [] {
      ActionAlike(g, h, Last(g.undo), true);
    }
  }

  lemma RedoAlike(g: Game, h: Game)
    requires WellFormed(g) && WellFormed(h) && Alike(g, h)
    ensures Alike(RedoAction(g), RedoAction(h))
  {
    if g.redo != [] {
      ActionAlike(g, h, Last(g.redo), false);
    }
  }

  /**
   * Undoing n actions and then redoing n gives the game back: the same
   * texts, flags, note sets and stacks.
   */
  lemma {:induction false} UndoRedoTimes(g: Game, n: nat)
    requires WellFormed(g) && n <= |g.undo|
    ensures Alike(RedoTimes(UndoTimes(g, n), n), g)
    decreases n
  {
    if n > 0 {
      var u := UndoAction(g);
      UndoPreserves(g);
      var x := UndoTimes(u, n - 1);
      assert UndoTimes(g, n) == x;
      UndoRedoTimes(u, n - 1);
      var y := RedoTimes(x, n - 1);
      RedoAlike(y, u);
      UndoThenRedo(g);
      assert RedoTimes(x, n) == RedoAction(y);
    }
  }
}
