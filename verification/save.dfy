/**
 * The save formats of js/script.js.
 *
 * Board: one character per cell in row-major order. A fixed cell is
 * written as its text; a modifiable cell as the "Shift + digit" symbol of
 * its digit (`numberToSymbol`), or '0' when it holds no digit.
 *
 * Notes: per cell, its notes followed by ',' (`getNotes`), or " ," when it
 * has none; `loadNotes` splits on ',' and hands each part to `setNotes`.
 */
module Save {
  import opened Basics
  import opened Grid
  import opened Board
  import opened Solver

  /** `symbols`: the characters typed with Shift on the digit keys 1 .. 9. */
  const Symbols: seq<char> := ['!', '@', '#', '$', '%', '^', '&', '*', '(']

  /** `numberToSymbol`: "1" .. "9" to its symbol, anything else to '0'. */
  function NumberToSymbol(num: string): (c: char)
    ensures IsDigit(num) ==> c == Symbols[num[0] as int - '1' as int]
    ensures !IsDigit(num) ==> c == '0'
  {
    DigitsListed(num);
    if num == "1" then '!'
    else if num == "2" then '@'
    else if num == "3" then '#'
    else if num == "4" then '$'
    else if num == "5" then '%'
    else if num == "6" then '^'
    else if num == "7" then '&'
    else if num == "8" then '*'
    else if num == "9" then '('
    else '0'
  }

  /** `symbolToNum`: a symbol back to its digit text, anything else to "0". */
  function SymbolToNum(sym: char): (num: string)
    ensures sym in Symbols ==> IsDigit(num) && num[0] as int - '1' as int < |Symbols| &&
                               Symbols[num[0] as int - '1' as int] == sym
    ensures sym !in Symbols ==> num == "0"
  {
    match sym
    case '!' => "1"
    case '@' => "2"
    case '#' => "3"
    case '$' => "4"
    case '%' => "5"
    case '^' => "6"
    case '&' => "7"
    case '*' => "8"
    case '(' => "9"
    case _ => "0"
  }

  /** The two conversions are inverse on digits and on symbols. */
  lemma SymbolRoundTrip(num: string, sym: char)
    ensures IsDigit(num) ==> NumberToSymbol(num) in Symbols && SymbolToNum(NumberToSymbol(num)) == num
    ensures sym in Symbols ==> NumberToSymbol(SymbolToNum(sym)) == sym
  {
    if IsDigit(num) {
      assert num == [num[0]];
    }
  }

  // ----- Board format -----

  /** What `saveBoard` writes for one cell. */
  function EncodeCell(c: Cell): (s: seq<char>)
    ensures !c.fixed ==> |s| == 1 && (s[0] == '0' <==> !IsDigit(c.value))
    ensures c.fixed ==> s == c.value
  {
    if c.fixed then c.value else [NumberToSymbol(c.value)]
  }

  /** `saveBoard` from cell p on. */
  function SaveBoardFrom(b: Board, p: int): (s: seq<char>)
    requires 0 <= p <= |b|
    decreases |b| - p
  {
    if p == |b| then [] else EncodeCell(b[p]) + SaveBoardFrom(b, p + 1)
  }

  /** `saveBoard`. */
  function SaveBoard(b: Board): (s: seq<char>)
  {
    SaveBoardFrom(b, 0)
  }

  /** What `loadBoard` makes of one character (on a cleared cell, so without notes). */
  function DecodeCell(ch: char): (c: Cell)
    ensures c.notes == []
    ensures c.fixed <==> ch != '0' && ch !in Symbols
    ensures ch == '0' ==> c.value == ""
    ensures ch in Symbols ==> IsDigit(c.value)
    ensures c.fixed ==> c.value == [ch]
  {
    if ch == '0' then EmptyCell
    else if ch in Symbols then Cell(SymbolToNum(ch), false, [])
    else Cell([ch], true, [])
  }

  /**
   * `loadBoard(s)`: an empty string changes nothing; otherwise the board
   * is cleared and the first characters, at most 81, are decoded into the
   * cells in row-major order. (A longer string makes the source throw once
   * it runs past the last row, after those 81 cells were written.)
   */
  function LoadBoard(b: Board, s: seq<char>): (r: Board)
    requires IsBoard(b)
    ensures IsBoard(r)
    ensures s == [] ==> r == b
    ensures s != [] ==> forall p | 0 <= p < CellCount ::
      r[p] == if p < |s| then DecodeCell(s[p]) else EmptyCell
  {
    if s == [] then b
    else
      var cleared := ClearBoard(b);
      seq(CellCount, p requires 0 <= p < CellCount => if p < |s| then DecodeCell(s[p]) else cleared[p])
  }

  /** A cell `saveBoard` can write and `loadBoard` read back. */
  predicate SavableCell(c: Cell)
  {
    if c.fixed then |c.value| == 1 && c.value[0] != '0' && c.value[0] !in Symbols
    else c.value == "" || IsDigit(c.value)
  }

  /** The one character a savable cell is written as. */
  function CellChar(c: Cell): (ch: char)
    requires SavableCell(c)
    ensures EncodeCell(c) == [ch]
  {
    if c.fixed then c.value[0] else NumberToSymbol(c.value)
  }

  lemma {:induction false} SaveBoardFromShape(b: Board, p: int)
    requires 0 <= p <= |b|
    requires forall q | 0 <= q < |b| :: SavableCell(b[q])
    ensures |SaveBoardFrom(b, p)| == |b| - p
    ensures forall q | p <= q < |b| :: SaveBoardFrom(b, p)[q - p] == CellChar(b[q])
    decreases |b| - p
  {
    if p < |b| {
      SaveBoardFromShape(b, p + 1);
      var rest := SaveBoardFrom(b, p + 1);
      var all := [CellChar(b[p])] + rest;
      assert SaveBoardFrom(b, p) == all;
      forall q | p < q < |b|
        ensures all[q - p] == CellChar(b[q])
      {
        assert all[q - p] == rest[q - (p + 1)];
      }
    }
  }

  /** One savable cell survives being written and read back, apart from its notes. */
  lemma CellRoundTrip(c: Cell)
    requires SavableCell(c)
    ensures DecodeCell(CellChar(c)) == c.(notes := [])
  {
    if !c.fixed {
      SymbolRoundTrip(c.value, '0');
    } else {
      assert c.value == [c.value[0]];
    }
  }

  /**
   * A board of savable cells is written as exactly 81 characters, and
   * reading them back onto any board restores every text and every
   * `unmodifiable` flag; notes are cleared (they travel separately).
   */
  lemma BoardRoundTrip(b: Board, other: Board)
    requires IsBoard(b) && IsBoard(other)
    requires forall p | 0 <= p < CellCount :: SavableCell(b[p])
    ensures |SaveBoard(b)| == CellCount
    ensures forall p | 0 <= p < CellCount :: LoadBoard(other, SaveBoard(b))[p] == b[p].(notes := [])
  {
    SaveBoardFromShape(b, 0);
    forall p | 0 <= p < CellCount
      ensures LoadBoard(other, SaveBoard(b))[p] == b[p].(notes := [])
    {
      CellRoundTrip(b[p]);
    }
  }

  /**
   * After the clear as written, a board with a fixed cell is no longer
   * savable: the cell's empty text is written as nothing at all, so the
   * saved string is shorter than the board and every later cell shifts.
   */
  lemma {:induction false} AsWrittenClearBreaksSave(b: Board, p: int)
    requires IsBoard(b) && 0 <= p < CellCount && b[p].fixed
    ensures |SaveBoard(ClearBoardAsWritten(b))| < CellCount
    ensures |SaveBoard(ClearBoard(b))| == CellCount
  {
    var c := ClearBoardAsWritten(b);
    ShorterSave(c, 0, p);
    forall q | 0 <= q < CellCount
      ensures SavableCell(ClearBoard(b)[q])
    {
    }
    SaveBoardFromShape(ClearBoard(b), 0);
  }

  /** Each cell writes at most one character here, and a fixed empty cell writes none. */
  lemma {:induction false} ShorterSave(b: Board, from: int, p: int)
    requires 0 <= from <= |b| && 0 <= p < |b|
    requires forall q | 0 <= q < |b| :: b[q].value == ""
    requires b[p].fixed
    ensures |SaveBoardFrom(b, from)| <= |b| - from
    ensures from <= p ==> |SaveBoardFrom(b, from)| < |b| - from
    decreases |b| - from
  {
    if from < |b| {
      ShorterSave(b, from + 1, p);
      var e := EncodeCell(b[from]);
      assert |e| <= 1;
      assert from == p ==> e == [];
      assert SaveBoardFrom(b, from) == e + SaveBoardFrom(b, from + 1);
    }
  }

  // ----- Notes format -----

  /** `getNotes`: the notes followed by ',', or " ," for a cell without notes. */
  function GetNotes(ns: seq<char>): (s: seq<char>)
    ensures |s| >= 2 && s[|s| - 1] == ','
  {
    if ns == [] then [' ', ','] else ns + [',']
  }

  /** `saveNotes` from cell p on. */
  function SaveNotesFrom(b: Board, p: int): (s: seq<char>)
    requires 0 <= p <= |b|
    decreases |b| - p
  {
    if p == |b| then [] else GetNotes(b[p].notes) + SaveNotesFrom(b, p + 1)
  }

  /** `saveNotes`. */
  function SaveNotes(b: Board): (s: seq<char>)
  {
    SaveNotesFrom(b, 0)
  }

  /** `String.prototype.split(',')`: the pieces between commas; n commas give n + 1 pieces. */
  function Split(s: seq<char>): (parts: seq<seq<char>>)
    ensures |parts| >= 1
    ensures forall k | 0 <= k < |parts| :: ',' !in parts[k]
    decreases |s|
  {
    if s == [] then [[]]
    else if s[0] == ',' then [[]] + Split(s[1..])
    else
      var rest := Split(s[1..]);
      [[s[0]] + rest[0]] + rest[1..]
  }

  /** A piece without a comma, then a comma, is split off first. */
  lemma {:induction false} SplitPiece(piece: seq<char>, rest: seq<char>)
    requires ',' !in piece
    ensures Split(piece + [','] + rest) == [piece] + Split(rest)
    decreases |piece|
  {
    if piece == [] {
      assert piece + [','] + rest == [','] + rest;
    } else {
      var s := piece + [','] + rest;
      assert s[0] == piece[0] && s[1..] == piece[1..] + [','] + rest;
      SplitPiece(piece[1..], rest);
      assert [piece[0]] + piece[1..] == piece;
    }
  }

  /** `setNotes(part, x, y)` on one cell: " " changes nothing, otherwise each new character is appended. */
  function SetNotes(ns: seq<char>, part: seq<char>): (r: seq<char>)
    ensures part == [' '] ==> r == ns
    ensures part != [' '] ==> NoteSet(r) == NoteSet(ns) + NoteSet(part)
    ensures NoDup(ns) ==> NoDup(r)
  {
    if part == [' '] then ns else AddNotes(ns, part)
  }

  /**
   * `loadNotes(s)`: an empty string changes nothing; otherwise the string
   * is split on ',' and part i goes to cell i through `setNotes`. (With
   * fewer than 81 parts the source throws at the first missing one, after
   * the earlier cells were written.)
   */
  function LoadNotes(b: Board, s: seq<char>): (r: Board)
    requires IsBoard(b)
    ensures IsBoard(r)
    ensures s == [] ==> r == b
    ensures forall p | 0 <= p < CellCount :: r[p].value == b[p].value && r[p].fixed == b[p].fixed
  {
    if s == [] then b
    else
      var parts := Split(s);
      seq(CellCount, p requires 0 <= p < CellCount =>
        if p < |parts| then b[p].(notes := SetNotes(b[p].notes, parts[p])) else b[p])
  }

  /** The notes a cell can hold in the page: distinct digits. */
  predicate DigitNotes(ns: seq<char>)
  {
    NoDup(ns) && forall k | 0 <= k < |ns| :: '1' <= ns[k] <= '9'
  }

  /** What `getNotes` puts before the comma. */
  function NotePart(ns: seq<char>): seq<char>
  {
    if ns == [] then [' '] else ns
  }

  /** Distinct digit notes never hold the separator. */
  lemma NoCommaInNotes(ns: seq<char>)
    requires DigitNotes(ns)
    ensures ',' !in NotePart(ns)
  {
    forall k | 0 <= k < |ns|
      ensures ns[k] != ','
    {
    }
  }

  /** Each part followed by a comma: the shape of what `saveNotes` writes. */
  function Join(parts: seq<seq<char>>): (s: seq<char>)
    decreases |parts|
  {
    if parts == [] then [] else parts[0] + [','] + Join(parts[1..])
  }

  /** Splitting comma-terminated, comma-free parts gives them back, and the empty tail. */
  lemma {:induction false} SplitJoin(parts: seq<seq<char>>)
    requires forall k | 0 <= k < |parts| :: ',' !in parts[k]
    ensures Split(Join(parts)) == parts + [[]]
    decreases |parts|
  {
    if parts != [] {
      SplitPiece(parts[0], Join(parts[1..]));
      SplitJoin(parts[1..]);
      assert [parts[0]] + (parts[1..] + [[]]) == parts + [[]];
    }
  }

  /** The text `getNotes` writes before the comma, for cells p on. */
  function NoteParts(b: Board, p: int): (parts: seq<seq<char>>)
    requires 0 <= p <= |b|
    ensures |parts| == |b| - p
    ensures forall q | p <= q < |b| :: parts[q - p] == NotePart(b[q].notes)
  {
    seq(|b| - p, i requires 0 <= i < |b| - p => NotePart(b[p + i].notes))
  }

  lemma {:induction false} SaveNotesJoin(b: Board, p: int)
    requires 0 <= p <= |b|
    ensures SaveNotesFrom(b, p) == Join(NoteParts(b, p))
    decreases |b| - p
  {
    if p < |b| {
      SaveNotesJoin(b, p + 1);
      var parts := NoteParts(b, p);
      assert parts[0] == NotePart(b[p].notes);
      assert parts[1..] == NoteParts(b, p + 1);
      assert GetNotes(b[p].notes) == NotePart(b[p].notes) + [','];
    }
  }

  /** The split of the saved notes string: one part per cell, then the empty tail. */
  lemma SplitSavedNotes(b: Board)
    requires forall q | 0 <= q < |b| :: ',' !in NotePart(b[q].notes)
    ensures Split(SaveNotes(b)) == NoteParts(b, 0) + [[]]
  {
    SaveNotesJoin(b, 0);
    SplitJoin(NoteParts(b, 0));
  }

  /**
   * Notes written by `saveNotes` and read back by `loadNotes` onto a board
   * without notes come back exactly, in their order, cell by cell.
   */
  lemma NotesRoundTrip(b: Board, other: Board)
    requires IsBoard(b) && IsBoard(other)
    requires forall p | 0 <= p < CellCount :: DigitNotes(b[p].notes)
    requires forall p | 0 <= p < CellCount :: other[p].notes == []
    ensures forall p | 0 <= p < CellCount ::
      LoadNotes(other, SaveNotes(b))[p] == other[p].(notes := b[p].notes)
  {
    forall q | 0 <= q < CellCount
      ensures ',' !in NotePart(b[q].notes)
    {
      NoCommaInNotes(b[q].notes);
    }
    SplitSavedNotes(b);
    var s := SaveNotes(b);
    assert s != [] by {
      assert |GetNotes(b[0].notes)| >= 2;
    }
    forall p | 0 <= p < CellCount
      ensures LoadNotes(other, s)[p] == other[p].(notes := b[p].notes)
    {
      var ns := b[p].notes;
      if ns != [] {
        assert ns[0] != ' ';
        assert ns != [' '];
        AddNotesFresh([], ns);
      }
    }
  }

  /**
   * A saved game (board string, then notes string) loaded onto any board
   * gives the saved board back, notes included.
   */
  lemma SavedGameRoundTrip(b: Board, other: Board)
    requires IsBoard(b) && IsBoard(other)
    requires forall p | 0 <= p < CellCount :: SavableCell(b[p]) && DigitNotes(b[p].notes)
    ensures LoadNotes(LoadBoard(other, SaveBoard(b)), SaveNotes(b)) == b
  {
    BoardRoundTrip(b, other);
    var loaded := LoadBoard(other, SaveBoard(b));
    NotesRoundTrip(b, loaded);
  }
}
