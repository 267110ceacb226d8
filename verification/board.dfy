/**
 * The board of js/script.js as data. Each of the 81 cells has the text of
 * its "sudoku-number" element, its `unmodifiable` flag (`fixed` here) and
 * the notes of its note container, in the order they were appended.
 * This module holds the note operations (`setNote`, `setNotes`,
 * `deleteIntersections`), `clearBoard` and the conflict count
 * `doesConflictExist`.
 */
module Board {
  import opened Basics
  import opened Grid
  import opened Rules

  datatype Cell = Cell(value: string, fixed: bool, notes: seq<char>)

  /** The 81 cells in row-major order: cell (x, y) sits at `Index(Pos(x, y))`. */
  type Board = seq<Cell>

  const EmptyCell := Cell("", false, [])

  predicate IsBoard(b: Board)
  {
    |b| == CellCount
  }

  /** The texts of the cells, as the checks read them. */
  function Values(b: Board): (g: seq<string>)
    ensures |g| == |b|
    ensures forall p | 0 <= p < |b| :: g[p] == b[p].value
  {
    seq(|b|, p requires 0 <= p < |b| => b[p].value)
  }

  /** The set of notes a cell shows, whatever their order in the container. */
  ghost function NoteSet(ns: seq<char>): set<char>
  {
    set c | c in ns
  }

  lemma NoDupCons(c: char, s: seq<char>)
    ensures NoDup([c] + s) <==> c !in s && NoDup(s)
  {
    var t := [c] + s;
    assert forall i | 0 <= i < |s| :: t[i + 1] == s[i];
    if c !in s && NoDup(s) {
      forall i, j | 0 <= i < j < |t|
        ensures t[i] != t[j]
      {
        if i == 0 {
          assert t[j] == s[j - 1];
        } else {
          assert t[i] == s[i - 1] && t[j] == s[j - 1];
        }
      }
    }
    if NoDup(t) {
      forall k | 0 <= k < |s|
        ensures s[k] != c
      {
        assert t[0] != t[k + 1];
      }
    }
  }

  // ----- Notes of one cell -----

  /** Removing the first note `d` (what `noteDiv.remove()` does to the first match). */
  function RemoveFirst(ns: seq<char>, d: char): (r: seq<char>)
    ensures multiset(r) == multiset(ns) - multiset{d}
    ensures forall c | c in r :: c in ns
    ensures forall c | c != d :: c in r <==> c in ns
    ensures NoDup(ns) ==> NoDup(r) && d !in r
  {
    if ns == [] then []
    else if ns[0] == d then
      assert ns == [ns[0]] + ns[1..];
      NoDupCons(ns[0], ns[1..]);
      ns[1..]
    else
      assert ns == [ns[0]] + ns[1..];
      NoDupCons(ns[0], ns[1..]);
      NoDupCons(ns[0], RemoveFirst(ns[1..], d));
      [ns[0]] + RemoveFirst(ns[1..], d)
  }

  /**
   * `setNote` / `setSelectedNote`: the note `d` is removed if the container
   * holds it, and appended otherwise.
   */
  function ToggleNote(ns: seq<char>, d: char): (r: seq<char>)
    ensures d !in ns ==> r == ns + [d]
    ensures d in ns ==> multiset(r) == multiset(ns) - multiset{d}
    ensures NoDup(ns) ==> NoDup(r)
    ensures NoDup(ns) ==> (d in r <==> d !in ns)
    ensures forall c | c != d :: c in r <==> c in ns
  {
    if d in ns then
      RemoveFirst(ns, d)
    else
      assert forall c | c in ns + [d] :: c in ns || c == d;
      NoDupSnocIf(ns, d);
      ns + [d]
  }

  lemma NoDupSnoc(s: seq<char>, c: char)
    requires NoDup(s) && c !in s
    ensures NoDup(s + [c])
  {
    var t := s + [c];
    forall i, j | 0 <= i < j < |t|
      ensures t[i] != t[j]
    {
      if j < |s| {
        assert t[i] == s[i] && t[j] == s[j];
      } else {
        assert t[i] == s[i];
      }
    }
  }

  lemma NoDupSnocIf(s: seq<char>, c: char)
    ensures NoDup(s) && c !in s ==> NoDup(s + [c])
  {
    if NoDup(s) && c !in s {
      NoDupSnoc(s, c);
    }
  }

  /**
   * Toggling the same note twice shows the same notes again; when the note
   * was absent, the container is exactly as before.
   */
  lemma ToggleTwice(ns: seq<char>, d: char)
    requires NoDup(ns)
    ensures NoteSet(ToggleNote(ToggleNote(ns, d), d)) == NoteSet(ns)
    ensures NoDup(ToggleNote(ToggleNote(ns, d), d))
    ensures d !in ns ==> ToggleNote(ToggleNote(ns, d), d) == ns
  {
    var once := ToggleNote(ns, d);
    var twice := ToggleNote(once, d);
    if d !in ns {
      assert once == ns + [d];
      RemoveFirstLast(ns, d);
    }
    assert d in twice <==> d in ns;
  }

  /** Removing a note that was appended last to a container without it gives the container back. */
  lemma {:induction false} RemoveFirstLast(ns: seq<char>, d: char)
    requires d !in ns
    ensures RemoveFirst(ns + [d], d) == ns
  {
    if ns == [] {
    } else {
      assert (ns + [d])[0] == ns[0];
      assert (ns + [d])[1..] == ns[1..] + [d];
      RemoveFirstLast(ns[1..], d);
      assert [ns[0]] + ns[1..] == ns;
    }
  }

  /**
   * The effect of `deleteIntersections` on one cell: every note `d` goes,
   * the other notes stay in order.
   */
  function RemoveNote(ns: seq<char>, d: char): (r: seq<char>)
    ensures d !in r
    ensures forall c | c != d :: c in r <==> c in ns
    ensures d !in ns ==> r == ns
    ensures NoDup(ns) ==> NoDup(r)
  {
    if ns == [] then []
    else
      assert ns == [ns[0]] + ns[1..];
      NoDupCons(ns[0], ns[1..]);
      var rest := RemoveNote(ns[1..], d);
      if ns[0] == d then rest
      else
        NoDupCons(ns[0], rest);
        [ns[0]] + rest
  }

  /**
   * `setNotes` for one cell: each character of the string is appended unless
   * the container already holds it.
   */
  function AddNotes(ns: seq<char>, str: seq<char>): (r: seq<char>)
    ensures NoteSet(r) == NoteSet(ns) + NoteSet(str)
    ensures |ns| <= |r| && r[..|ns|] == ns
    ensures NoDup(ns) ==> NoDup(r)
    decreases |str|
  {
    if str == [] then ns
    else
      var next := if str[0] in ns then ns else ns + [str[0]];
      NoDupSnocIf(ns, str[0]);
      assert forall c | c in str[1..] :: c in str;
      assert str == [str[0]] + str[1..];
      var r := AddNotes(next, str[1..]);
      assert r[..|ns|] == r[..|next|][..|ns|];
      r
  }

  /** Adding distinct notes that are all new appends them in order. */
  lemma {:induction false} AddNotesFresh(ns: seq<char>, str: seq<char>)
    requires NoDup(str)
    requires forall c | c in str :: c !in ns
    ensures AddNotes(ns, str) == ns + str
    decreases |str|
  {
    if str != [] {
      var c0, rest := str[0], str[1..];
      FreshStep(ns, str);
      AddNotesFresh(ns + [c0], rest);
      assert ns + [c0] + rest == ns + str;
    }
  }

  /** One step of `AddNotesFresh`: the first note is appended and the rest stay fresh. */
  lemma FreshStep(ns: seq<char>, str: seq<char>)
    requires str != [] && NoDup(str)
    requires forall c | c in str :: c !in ns
    ensures AddNotes(ns, str) == AddNotes(ns + [str[0]], str[1..])
    ensures NoDup(str[1..])
    ensures forall c | c in str[1..] :: c !in ns + [str[0]]
  {
    assert str == [str[0]] + str[1..];
    NoDupCons(str[0], str[1..]);
    assert str[0] in str;
    forall c | c in str[1..]
      ensures c !in ns + [str[0]]
    {
      assert c in str;
    }
  }

  // ----- Whole-board operations -----

  /** The cell at flat index `p` gets the text `v`; flags and notes stay. */
  function SetValue(b: Board, p: int, v: string): (r: Board)
    requires 0 <= p < |b|
    ensures |r| == |b| && r[p].value == v
    ensures r[p].fixed == b[p].fixed && r[p].notes == b[p].notes
    ensures forall q | 0 <= q < |b| && q != p :: r[q] == b[q]
  {
    b[p := b[p].(value := v)]
  }

  /** One pass of `deleteIntersections`: note `d` leaves every cell listed in `idxs`. */
  function StripNote(b: Board, d: char, idxs: seq<int>): (r: Board)
    ensures |r| == |b|
    ensures forall q | 0 <= q < |b| ::
      r[q] == if q in idxs then b[q].(notes := RemoveNote(b[q].notes, d)) else b[q]
  {
    seq(|b|, q requires 0 <= q < |b| =>
      if q in idxs then b[q].(notes := RemoveNote(b[q].notes, d)) else b[q])
  }

  /**
   * The cells of the box centred at c that lie off row x and off column y,
   * the only box cells `getNotesGrid` returns, from step t of the scan on.
   */
  function BoxOthers(c: Pos, x: int, y: int, t: int): (idxs: seq<int>)
    requires 0 <= t <= Size
    ensures forall k | 0 <= k < |idxs| :: RowOf(idxs[k]) != x && ColOf(idxs[k]) != y
    decreases Size - t
  {
    if t == Size then []
    else
      var p := BoxIndices(c)[t];
      (if RowOf(p) != x && ColOf(p) != y then [p] else []) + BoxOthers(c, x, y, t + 1)
  }

  /** A cell the box pass visits comes from some step u of the scan. */
  lemma {:induction false} BoxOthersWitness(c: Pos, x: int, y: int, t: int, q: int) returns (u: int)
    requires 0 <= t <= Size && q in BoxOthers(c, x, y, t)
    ensures t <= u < Size && BoxIndices(c)[u] == q
    ensures RowOf(q) != x && ColOf(q) != y
    decreases Size - t
  {
    var p := BoxIndices(c)[t];
    var head := if RowOf(p) != x && ColOf(p) != y then [p] else [];
    assert BoxOthers(c, x, y, t) == head + BoxOthers(c, x, y, t + 1);
    if q in head {
      u := t;
    } else {
      u := BoxOthersWitness(c, x, y, t + 1, q);
    }
  }

  /** Every step u of the scan whose cell is off the row and column is visited. */
  lemma {:induction false} BoxOthersCover(c: Pos, x: int, y: int, t: int, u: int)
    requires 0 <= t <= u < Size
    requires RowOf(BoxIndices(c)[u]) != x && ColOf(BoxIndices(c)[u]) != y
    ensures BoxIndices(c)[u] in BoxOthers(c, x, y, t)
    decreases Size - t
  {
    var p := BoxIndices(c)[t];
    var head := if RowOf(p) != x && ColOf(p) != y then [p] else [];
    assert BoxOthers(c, x, y, t) == head + BoxOthers(c, x, y, t + 1);
    if t < u {
      BoxOthersCover(c, x, y, t + 1, u);
    }
  }

  /** The cells the box pass of `deleteIntersections` visits are the box peers off the row and column. */
  lemma BoxOthersMembership(x: int, y: int, q: int)
    requires ValidPosition(x, y)
    ensures q in BoxOthers(BoxCenter(x, y), x, y, 0) <==>
      0 <= q < CellCount && SameBox(Index(Pos(x, y)), q) && RowOf(q) != x && ColOf(q) != y
  {
    if q in BoxOthers(BoxCenter(x, y), x, y, 0) {
      BoxOthersOnlyBox(x, y, q);
    }
    if 0 <= q < CellCount && SameBox(Index(Pos(x, y)), q) && RowOf(q) != x && ColOf(q) != y {
      BoxOthersCoverBox(x, y, q);
    }
  }

  /** Cell q lies in the box centred at `BoxCenter(x, y)` exactly when it shares the box of (x, y). */
  lemma InOwnBox(x: int, y: int, q: int)
    requires ValidPosition(x, y)
    ensures q in BoxIndices(BoxCenter(x, y)) <==> 0 <= q < CellCount && SameBox(Index(Pos(x, y)), q)
  {
    OwnCenterListed(x, y);
    BoxMembership(OwnCenterIndex(x, y), q);
    if 0 <= q < CellCount {
      SameBoxIffOwnCenter(x, y, q);
    }
  }

  lemma BoxOthersOnlyBox(x: int, y: int, q: int)
    requires ValidPosition(x, y) && q in BoxOthers(BoxCenter(x, y), x, y, 0)
    ensures 0 <= q < CellCount && SameBox(Index(Pos(x, y)), q) && RowOf(q) != x && ColOf(q) != y
  {
    var u := BoxOthersWitness(BoxCenter(x, y), x, y, 0, q);
    InOwnBox(x, y, q);
  }

  lemma BoxOthersCoverBox(x: int, y: int, q: int)
    requires ValidPosition(x, y)
    requires 0 <= q < CellCount && SameBox(Index(Pos(x, y)), q) && RowOf(q) != x && ColOf(q) != y
    ensures q in BoxOthers(BoxCenter(x, y), x, y, 0)
  {
    InOwnBox(x, y, q);
    var t :| 0 <= t < Size && BoxIndices(BoxCenter(x, y))[t] == q;
    BoxOthersCover(BoxCenter(x, y), x, y, 0, t);
  }

  /** Reference effect of `deleteIntersections`: note `d` leaves every peer of cell p. */
  function PeerStrip(b: Board, d: char, p: int): (r: Board)
    requires IsBoard(b)
    ensures IsBoard(r)
    ensures forall q | 0 <= q < CellCount :: r[q].value == b[q].value && r[q].fixed == b[q].fixed
    ensures forall q | 0 <= q < CellCount ::
      r[q].notes == if Peers(p, q) then RemoveNote(b[q].notes, d) else b[q].notes
  {
    seq(CellCount, q requires 0 <= q < CellCount =>
      if Peers(p, q) then b[q].(notes := RemoveNote(b[q].notes, d)) else b[q])
  }

  /**
   * `deleteIntersections(d, x, y)`: the row pass, the column pass and the
   * box pass, in that order. Together they strip `d` exactly from the
   * peers of (x, y), the cell itself included.
   */
  function DeleteIntersections(b: Board, d: char, x: int, y: int): (r: Board)
    requires IsBoard(b) && ValidPosition(x, y)
    ensures r == PeerStrip(b, d, Index(Pos(x, y)))
  {
    var c := ClosestGrid(x, y);
    ClosestGridIsOwnBox(x, y);
    var r := StripNote(StripNote(StripNote(b, d, RowIndices(x)), d, ColIndices(y)), d, BoxOthers(c, x, y, 0));
    PassesArePeers(b, d, x, y);
    r
  }

  /** The three passes together strip `d` exactly from the peers of (x, y). */
  lemma PassesArePeers(b: Board, d: char, x: int, y: int)
    requires IsBoard(b) && ValidPosition(x, y)
    ensures StripNote(StripNote(StripNote(b, d, RowIndices(x)), d, ColIndices(y)), d, BoxOthers(BoxCenter(x, y), x, y, 0)) ==
      PeerStrip(b, d, Index(Pos(x, y)))
  {
    var r3 := StripNote(StripNote(StripNote(b, d, RowIndices(x)), d, ColIndices(y)), d, BoxOthers(BoxCenter(x, y), x, y, 0));
    var e := PeerStrip(b, d, Index(Pos(x, y)));
    forall q | 0 <= q < CellCount
      ensures r3[q] == e[q]
    {
      PassesAtCell(b, d, x, y, q);
    }
  }

  lemma PassesAtCell(b: Board, d: char, x: int, y: int, q: int)
    requires IsBoard(b) && ValidPosition(x, y) && 0 <= q < CellCount
    ensures StripNote(StripNote(StripNote(b, d, RowIndices(x)), d, ColIndices(y)), d, BoxOthers(BoxCenter(x, y), x, y, 0))[q] ==
      if Peers(Index(Pos(x, y)), q) then b[q].(notes := RemoveNote(b[q].notes, d)) else b[q]
  {
    var r1 := StripNote(b, d, RowIndices(x));
    var r2 := StripNote(r1, d, ColIndices(y));
    var others := BoxOthers(BoxCenter(x, y), x, y, 0);
    IndexParts(x, y);
    RowMembership(x, q);
    ColMembership(y, q);
    BoxOthersMembership(x, y, q);
    var inRow, inCol, inBox := q in RowIndices(x), q in ColIndices(y), q in others;
    assert Peers(Index(Pos(x, y)), q) <==> inRow || inCol || inBox;
    assert r1[q] == if inRow then b[q].(notes := RemoveNote(b[q].notes, d)) else b[q];
    assert r2[q] == if inCol then r1[q].(notes := RemoveNote(r1[q].notes, d)) else r1[q];
  }

  /**
   * `clearBoard` as written: texts and notes go, but the assignment meant to
   * reset `unmodifiable` targets the text string, so every flag is kept.
   */
  function ClearBoardAsWritten(b: Board): (r: Board)
    ensures |r| == |b|
    ensures forall p | 0 <= p < |b| :: r[p].value == "" && r[p].notes == [] && r[p].fixed == b[p].fixed
  {
    seq(|b|, p requires 0 <= p < |b| => Cell("", b[p].fixed, []))
  }

  /** `clearBoard` as intended: every cell empty, modifiable and without notes. */
  function ClearBoard(b: Board): (r: Board)
    ensures |r| == |b|
    ensures forall p | 0 <= p < |b| :: r[p] == EmptyCell
  {
    seq(|b|, p requires 0 <= p < |b| => EmptyCell)
  }

  /**
   * After the clear as written, a cell that was fixed is empty and still
   * fixed; after the intended clear no cell is fixed.
   */
  lemma ClearKeepsLocks(b: Board, p: int)
    requires 0 <= p < |b| && b[p].fixed
    ensures ClearBoardAsWritten(b)[p].fixed && ClearBoardAsWritten(b)[p].value == ""
    ensures ClearBoardAsWritten(b) != ClearBoard(b)
    ensures forall q | 0 <= q < |b| :: !ClearBoard(b)[q].fixed
  {
    assert ClearBoardAsWritten(b)[p] != ClearBoard(b)[p];
  }

  // ----- Conflict count -----

  /** `checkCoordinate` fails for the modifiable cell at flat index p. */
  predicate Conflicting(b: Board, p: int)
    requires IsBoard(b) && 0 <= p < CellCount
  {
    var c := PositionConversion(p, Size);
    ConversionIndexRoundTrip(p);
    !b[p].fixed && !CheckCoordinate(Values(b), c.x, c.y, b[p].fixed)
  }

  /** The reference meaning of a conflict: a modifiable, non-empty cell with a clashing peer. */
  ghost predicate ClashingEntry(b: Board, p: int)
    requires IsBoard(b) && 0 <= p < CellCount
  {
    !b[p].fixed && b[p].value != "" && !PeersClear(Values(b), b[p].value, p)
  }

  lemma ConflictingIsClash(b: Board, p: int)
    requires IsBoard(b) && 0 <= p < CellCount
    ensures Conflicting(b, p) <==> ClashingEntry(b, p)
  {
    ConversionIndexRoundTrip(p);
  }

  /**
   * `numberOfErrors` after the scan of `doesConflictExist` over the cells
   * from flat index p on.
   */
  function ConflictCountFrom(b: Board, p: int): (n: nat)
    requires IsBoard(b) && 0 <= p <= CellCount
    ensures n <= CellCount - p
    ensures n == 0 <==> forall q | p <= q < CellCount :: !ClashingEntry(b, q)
    decreases CellCount - p
  {
    if p == CellCount then 0
    else
      ConflictingIsClash(b, p);
      (if Conflicting(b, p) then 1 else 0) + ConflictCountFrom(b, p + 1)
  }

  function ConflictCount(b: Board): (n: nat)
    requires IsBoard(b)
    ensures n <= CellCount
    ensures n == 0 <==> forall q | 0 <= q < CellCount :: !ClashingEntry(b, q)
  {
    ConflictCountFrom(b, 0)
  }

  /** `doesConflictExist`: some modifiable, non-empty cell shares its text with a peer (or a peer's text is too long). */
  function DoesConflictExist(b: Board): (r: bool)
    requires IsBoard(b)
    ensures r <==> exists q | 0 <= q < CellCount :: ClashingEntry(b, q)
  {
    ConflictCount(b) > 0
  }

  /** A board that passes `checkGame` reports no conflict. */
  lemma NoClashNoConflict(b: Board)
    requires IsBoard(b) && NoClash(Values(b))
    ensures !DoesConflictExist(b)
  {
    forall q | 0 <= q < CellCount
      ensures !ClashingEntry(b, q)
    {
      var c := PositionConversion(q, Size);
      ConversionIndexRoundTrip(q);
      NoClashMeansNoConflict(Values(b), c.x, c.y, false);
    }
  }
}
