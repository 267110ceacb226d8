/**
 * The constraint checker of js/script.js: the per-unit scans `checkRow`,
 * `checkCol` and `checkGrid`, the whole-board checks `checkGame` and
 * `checkSolution`, and the conflict count `checkCoordinate` /
 * `doesConflictExist`. A grid is the 81 cell texts in row-major order.
 */
module Rules {
  import opened Basics
  import opened Grid

  /** A grid of cell texts: what `textContent` holds for each of the 81 cells. */
  predicate IsGrid(g: seq<string>)
  {
    |g| == CellCount
  }

  /** The texts of the listed cells, in list order. */
  function Gather(g: seq<string>, idxs: seq<int>): (vals: seq<string>)
    requires forall k | 0 <= k < |idxs| :: 0 <= idxs[k] < |g|
    ensures |vals| == |idxs|
    ensures forall k | 0 <= k < |idxs| :: vals[k] == g[idxs[k]]
  {
    seq(|idxs|, k requires 0 <= k < |idxs| => g[idxs[k]])
  }

  /** The unit rule on a list of texts: none longer than one character, no non-empty text twice. */
  ghost predicate UnitValid(vals: seq<string>)
  {
    && (forall i | 0 <= i < |vals| :: |vals[i]| <= 1)
    && (forall i, j | 0 <= i < j < |vals| :: vals[i] != "" ==> vals[i] != vals[j])
  }

  /** The unit rule on a set of cells. */
  ghost predicate CellsValid(g: seq<string>, cells: set<int>)
    requires forall p | p in cells :: 0 <= p < |g|
  {
    && (forall p | p in cells :: |g[p]| <= 1)
    && (forall p, q | p in cells && q in cells && p != q :: g[p] != "" ==> g[p] != g[q])
  }

  /** The cells of row `x`. */
  ghost function RowCells(x: int): set<int>
  {
    set p | 0 <= p < CellCount && RowOf(p) == x
  }

  /** The cells of column `y`. */
  ghost function ColCells(y: int): set<int>
  {
    set p | 0 <= p < CellCount && ColOf(p) == y
  }

  /** The cells of the box that holds (x, y). */
  ghost function BoxCellsOf(x: int, y: int): set<int>
  {
    set p | 0 <= p < CellCount && RowOf(p) / 3 == x / 3 && ColOf(p) / 3 == y / 3
  }

  /**
   * The scan of one unit from position `i` on; `current` is the list of
   * non-empty texts seen so far. A text already in `current` or longer
   * than one character fails the unit; an empty text is never recorded.
   */
  function ScanUnit(vals: seq<string>, i: int, current: seq<string>): (ok: bool)
    requires 0 <= i <= |vals|
    requires UnitValid(vals[..i])
    requires forall s :: s in current <==> s != "" && s in vals[..i]
    ensures ok <==> UnitValid(vals)
    decreases |vals| - i
  {
    if i == |vals| then
      assert vals[..i] == vals;
      true
    else
      var check := vals[i];
      if check in current || |check| > 1 then
        ClashFailsUnit(vals, i, current);
        false
      else
        assert vals[..i + 1] == vals[..i] + [check];
        ScanUnit(vals, i + 1, if check != "" then current + [check] else current)
  }

  /** A text seen before, or one longer than one character, breaks the unit rule. */
  lemma ClashFailsUnit(vals: seq<string>, i: int, current: seq<string>)
    requires 0 <= i < |vals|
    requires forall s :: s in current <==> s != "" && s in vals[..i]
    requires vals[i] in current || |vals[i]| > 1
    ensures !UnitValid(vals)
  {
    if vals[i] in current {
      var k :| 0 <= k < i && vals[..i][k] == vals[i];
      assert vals[k] != "" && vals[k] == vals[i];
    }
  }

  /** One unit scan from the start with nothing recorded. */
  function CheckUnit(vals: seq<string>): (ok: bool)
    ensures ok <==> UnitValid(vals)
  {
    assert vals[..0] == [];
    ScanUnit(vals, 0, [])
  }

  /** The elements of a list, as a set. */
  ghost function SetOf(idxs: seq<int>): set<int>
  {
    set p | p in idxs
  }

  /** Scanning a list of distinct cells checks the unit rule on the set of those cells. */
  lemma GatherValidIffCellsValid(g: seq<string>, idxs: seq<int>)
    requires forall k | 0 <= k < |idxs| :: 0 <= idxs[k] < |g|
    requires NoDup(idxs)
    ensures forall p | p in SetOf(idxs) :: 0 <= p < |g|
    ensures UnitValid(Gather(g, idxs)) <==> CellsValid(g, SetOf(idxs))
  {
    var vals := Gather(g, idxs);
    if UnitValid(vals) {
      forall p, q | p in SetOf(idxs) && q in SetOf(idxs) && p != q && g[p] != ""
        ensures g[p] != g[q]
      {
        var i :| 0 <= i < |idxs| && idxs[i] == p;
        var j :| 0 <= j < |idxs| && idxs[j] == q;
        if i < j {
          assert vals[i] != "" ==> vals[i] != vals[j];
        } else if g[q] != "" {
          assert vals[j] != "" ==> vals[j] != vals[i];
        }
      }
      forall p | p in SetOf(idxs)
        ensures |g[p]| <= 1
      {
        var i :| 0 <= i < |idxs| && idxs[i] == p;
        assert |vals[i]| <= 1;
      }
    }
    if CellsValid(g, SetOf(idxs)) {
      forall i, j | 0 <= i < j < |vals| && vals[i] != ""
        ensures vals[i] != vals[j]
      {
        assert idxs[i] in SetOf(idxs) && idxs[j] in SetOf(idxs);
      }
      forall i | 0 <= i < |vals|
        ensures |vals[i]| <= 1
      {
        assert idxs[i] in SetOf(idxs);
      }
    }
  }

  /** The cells each scan visits, as sets. */
  lemma UnitSets(i: int)
    requires 0 <= i < Size
    ensures SetOf(RowIndices(i)) == RowCells(i)
    ensures SetOf(ColIndices(i)) == ColCells(i)
    ensures SetOf(BoxIndices(GridCenters[i])) == BoxCellsOf(GridCenters[i].x, GridCenters[i].y)
  {
    forall p ensures p in SetOf(RowIndices(i)) <==> p in RowCells(i) {
      RowMembership(i, p);
    }
    forall p ensures p in SetOf(ColIndices(i)) <==> p in ColCells(i) {
      ColMembership(i, p);
    }
    var c := GridCenters[i];
    CenterFormula(i);
    forall p ensures p in SetOf(BoxIndices(c)) <==> p in BoxCellsOf(c.x, c.y) {
      BoxMembership(i, p);
      if 0 <= p < CellCount {
        IndexFromParts(p);
        BandFacts(RowOf(p));
        BandFacts(ColOf(p));
      }
    }
  }

  /** `checkRow(x)`: row x passes the unit rule. */
  function CheckRow(g: seq<string>, x: int): (ok: bool)
    requires IsGrid(g) && 0 <= x < Size
    ensures ok <==> CellsValid(g, RowCells(x))
  {
    UnitSets(x);
    UnitsNoDup(x);
    forall k | 0 <= k < Size ensures 0 <= RowIndices(x)[k] < CellCount {
      IndexParts(x, k);
    }
    GatherValidIffCellsValid(g, RowIndices(x));
    CheckUnit(Gather(g, RowIndices(x)))
  }

  /** `checkCol(y)`: column y passes the unit rule. */
  function CheckCol(g: seq<string>, y: int): (ok: bool)
    requires IsGrid(g) && 0 <= y < Size
    ensures ok <==> CellsValid(g, ColCells(y))
  {
    UnitSets(y);
    UnitsNoDup(y);
    forall k | 0 <= k < Size ensures 0 <= ColIndices(y)[k] < CellCount {
      IndexParts(k, y);
    }
    GatherValidIffCellsValid(g, ColIndices(y));
    CheckUnit(Gather(g, ColIndices(y)))
  }

  /** `checkGrid(x, y)`: the box that `closestGrid(x, y)` picks passes the unit rule. */
  function CheckGrid(g: seq<string>, x: int, y: int): (ok: bool)
    requires IsGrid(g) && ValidPosition(x, y)
    ensures ok <==> CellsValid(g, BoxCellsOf(x, y))
  {
    var c := ClosestGrid(x, y);
    ClosestGridIsOwnBox(x, y);
    var k := OwnCenterIndex(x, y);
    OwnCenterListed(x, y);
    UnitSets(k);
    UnitsNoDup(k);
    BandFacts(x);
    BandFacts(y);
    assert BoxCellsOf(c.x, c.y) == BoxCellsOf(x, y);
    forall t | 0 <= t < Size ensures 0 <= BoxIndices(c)[t] < CellCount {
      BoxMembership(k, BoxIndices(c)[t]);
    }
    GatherValidIffCellsValid(g, BoxIndices(c));
    CheckUnit(Gather(g, BoxIndices(c)))
  }

  // ----- Whole board -----

  /** Reference rule: no text longer than one character, and no two peers share a non-empty text. */
  ghost predicate NoClash(g: seq<string>)
    requires IsGrid(g)
  {
    && (forall p | 0 <= p < CellCount :: |g[p]| <= 1)
    && (forall p, q | 0 <= p < CellCount && 0 <= q < CellCount && p != q && Peers(p, q) ::
          g[p] != "" ==> g[p] != g[q])
  }

  /** Every cell holds a text. */
  ghost predicate Complete(g: seq<string>)
    requires IsGrid(g)
  {
    forall p | 0 <= p < CellCount :: g[p] != ""
  }

  /** Row i, column i and box i all pass the unit rule. */
  ghost predicate UnitsValid(g: seq<string>, i: int)
    requires IsGrid(g) && 0 <= i < Size
  {
    && CellsValid(g, RowCells(i))
    && CellsValid(g, ColCells(i))
    && CellsValid(g, BoxCellsOf(GridCenters[i].x, GridCenters[i].y))
  }

  /** The loop of `checkGame` from unit index `i` on. */
  function CheckGameFrom(g: seq<string>, i: int): (ok: bool)
    requires IsGrid(g) && 0 <= i <= Size
    ensures ok <==> forall k | i <= k < Size :: UnitsValid(g, k)
    decreases Size - i
  {
    if i == Size then true else CheckUnits(g, i) && CheckGameFrom(g, i + 1)
  }

  /** One round of the `checkGame` loop: row i, column i and box i. */
  function CheckUnits(g: seq<string>, i: int): (ok: bool)
    requires IsGrid(g) && 0 <= i < Size
    ensures ok <==> UnitsValid(g, i)
  {
    CenterOnBoard(i);
    CheckRow(g, i) && CheckCol(g, i) && CheckGrid(g, GridCenters[i].x, GridCenters[i].y)
  }

  /** `checkGame`: all 27 units pass, which is the peer rule on the whole board. */
  function CheckGame(g: seq<string>): (ok: bool)
    requires IsGrid(g)
    ensures ok <==> forall k | 0 <= k < Size :: UnitsValid(g, k)
    ensures ok <==> NoClash(g)
  {
    AllUnitsIffNoClash(g);
    CheckGameFrom(g, 0)
  }

  /** `checkSolution`: no cell is empty and `checkGame` holds. */
  function CheckSolution(g: seq<string>): (ok: bool)
    requires IsGrid(g)
    ensures ok <==> Complete(g) && NoClash(g)
  {
    (forall p | 0 <= p < CellCount :: g[p] != "") && CheckGame(g)
  }

  /** The 27 units cover exactly the peer pairs. */
  lemma AllUnitsIffNoClash(g: seq<string>)
    requires IsGrid(g)
    ensures (forall k | 0 <= k < Size :: UnitsValid(g, k)) <==> NoClash(g)
  {
    if forall k | 0 <= k < Size :: UnitsValid(g, k) {
      UnitsGiveNoClash(g);
    }
    if NoClash(g) {
      forall k | 0 <= k < Size
        ensures UnitsValid(g, k)
      {
        NoClashGivesUnits(g, k);
      }
    }
  }

  lemma UnitsGiveNoClash(g: seq<string>)
    requires IsGrid(g)
    requires forall k | 0 <= k < Size :: UnitsValid(g, k)
    ensures NoClash(g)
  {
    forall p | 0 <= p < CellCount
      ensures |g[p]| <= 1
    {
      IndexFromParts(p);
      assert UnitsValid(g, RowOf(p));
      assert p in RowCells(RowOf(p));
    }
    forall p, q | 0 <= p < CellCount && 0 <= q < CellCount && p != q && Peers(p, q) && g[p] != ""
      ensures g[p] != g[q]
    {
      PeersDiffer(g, p, q);
    }
  }

  lemma PeersDiffer(g: seq<string>, p: int, q: int)
    requires IsGrid(g)
    requires forall k | 0 <= k < Size :: UnitsValid(g, k)
    requires 0 <= p < CellCount && 0 <= q < CellCount && p != q && Peers(p, q) && g[p] != ""
    ensures g[p] != g[q]
  {
    IndexFromParts(p);
    IndexFromParts(q);
    if RowOf(p) == RowOf(q) {
      assert UnitsValid(g, RowOf(p));
      assert p in RowCells(RowOf(p)) && q in RowCells(RowOf(p));
    } else if ColOf(p) == ColOf(q) {
      assert UnitsValid(g, ColOf(p));
      assert p in ColCells(ColOf(p)) && q in ColCells(ColOf(p));
    } else {
      var k := OwnCenterIndex(RowOf(p), ColOf(p));
      OwnCenterListed(RowOf(p), ColOf(p));
      BandFacts(RowOf(p));
      BandFacts(ColOf(p));
      var c := GridCenters[k];
      assert c.x / 3 == RowOf(p) / 3 && c.y / 3 == ColOf(p) / 3;
      assert UnitsValid(g, k);
      assert p in BoxCellsOf(c.x, c.y);
      assert q in BoxCellsOf(c.x, c.y);
    }
  }

  lemma NoClashGivesUnits(g: seq<string>, k: int)
    requires IsGrid(g) && 0 <= k < Size
    requires NoClash(g)
    ensures UnitsValid(g, k)
  {
    var c := GridCenters[k];
    forall p, q | p in BoxCellsOf(c.x, c.y) && q in BoxCellsOf(c.x, c.y)
      ensures Peers(p, q)
    {
      assert SameBox(p, q);
    }
  }

  // ----- Conflicts in player-entered cells -----

  /** No cell of row x other than column y holds `val` or a text longer than one character. */
  function RowClear(g: seq<string>, val: string, x: int, y: int): bool
    requires IsGrid(g) && ValidPosition(x, y)
  {
    forall i | 0 <= i < Size && i != y ::
      (IndexParts(x, i); g[RowIndices(x)[i]] != val && |g[RowIndices(x)[i]]| <= 1)
  }

  /** No cell of column y other than row x holds `val` or a text longer than one character. */
  function ColClear(g: seq<string>, val: string, x: int, y: int): bool
    requires IsGrid(g) && ValidPosition(x, y)
  {
    forall i | 0 <= i < Size && i != x ::
      (IndexParts(i, y); g[ColIndices(y)[i]] != val && |g[ColIndices(y)[i]]| <= 1)
  }

  /** Cell `t` (row by row) of the box `closestGrid(x, y)` picks. */
  function BoxCell(x: int, y: int, t: int): (p: int)
    requires ValidPosition(x, y) && 0 <= t < Size
    ensures 0 <= p < CellCount
  {
    var c := ClosestGrid(x, y);
    ClosestGridIsOwnBox(x, y);
    OwnCenterListed(x, y);
    BoxMembership(OwnCenterIndex(x, y), BoxIndices(c)[t]);
    BoxIndices(c)[t]
  }

  /** Two cells share a box exactly when their box centres have the same index. */
  lemma SameBoxIffOwnCenter(x: int, y: int, q: int)
    requires ValidPosition(x, y) && 0 <= q < CellCount
    ensures SameBox(Index(Pos(x, y)), q) <==>
            OwnCenterIndex(RowOf(q), ColOf(q)) == OwnCenterIndex(x, y)
  {
    IndexParts(x, y);
    IndexFromParts(q);
    BandFacts(x);
    BandFacts(y);
    BandFacts(RowOf(q));
    BandFacts(ColOf(q));
  }

  /** The box cells are exactly the cells sharing the box of (x, y). */
  lemma BoxCellMembership(x: int, y: int, q: int)
    requires ValidPosition(x, y)
    ensures (exists t :: 0 <= t < Size && BoxCell(x, y, t) == q) <==>
            0 <= q < CellCount && SameBox(Index(Pos(x, y)), q)
  {
    var c := ClosestGrid(x, y);
    ClosestGridIsOwnBox(x, y);
    OwnCenterListed(x, y);
    var k := OwnCenterIndex(x, y);
    assert c == GridCenters[k];
    BoxMembership(k, q);
    if 0 <= q < CellCount {
      SameBoxIffOwnCenter(x, y, q);
    }
    if 0 <= q < CellCount && SameBox(Index(Pos(x, y)), q) {
      var t :| 0 <= t < Size && BoxIndices(c)[t] == q;
      assert BoxCell(x, y, t) == q;
    }
  }

  /**
   * The box pass of `checkCoordinate`: only the box cells off row x and
   * off column y are compared (the row and column passes saw the rest).
   */
  function BoxClear(g: seq<string>, val: string, x: int, y: int): bool
    requires IsGrid(g) && ValidPosition(x, y)
  {
    forall t | 0 <= t < Size ::
      RowOf(BoxCell(x, y, t)) != x && ColOf(BoxCell(x, y, t)) != y ==>
        g[BoxCell(x, y, t)] != val && |g[BoxCell(x, y, t)]| <= 1
  }

  /**
   * `checkCoordinate(x, y)`: an empty or unmodifiable cell never conflicts;
   * otherwise no other cell of its row, column or box may hold the same
   * text or a text longer than one character.
   */
  function CheckCoordinate(g: seq<string>, x: int, y: int, unmodifiable: bool): (ok: bool)
    requires IsGrid(g) && ValidPosition(x, y)
    ensures ok <==> g[Index(Pos(x, y))] == "" || unmodifiable ||
                    PeersClear(g, g[Index(Pos(x, y))], Index(Pos(x, y)))
  {
    var p := Index(Pos(x, y));
    var val := g[p];
    CoordinateScansArePeers(g, val, x, y);
    if val == "" || unmodifiable then true
    else RowClear(g, val, x, y) && ColClear(g, val, x, y) && BoxClear(g, val, x, y)
  }

  /** Other peers of cell p that hold neither `val` nor a text longer than one character. */
  ghost predicate PeersClear(g: seq<string>, val: string, p: int)
    requires IsGrid(g)
  {
    forall q | 0 <= q < CellCount && q != p && Peers(p, q) :: g[q] != val && |g[q]| <= 1
  }

  /** The three passes of `checkCoordinate` together visit exactly the other peers of the cell. */
  lemma CoordinateScansArePeers(g: seq<string>, val: string, x: int, y: int)
    requires IsGrid(g) && ValidPosition(x, y)
    ensures RowClear(g, val, x, y) && ColClear(g, val, x, y) && BoxClear(g, val, x, y) <==>
            PeersClear(g, val, Index(Pos(x, y)))
  {
    if RowClear(g, val, x, y) && ColClear(g, val, x, y) && BoxClear(g, val, x, y) {
      forall q | 0 <= q < CellCount && q != Index(Pos(x, y)) && Peers(Index(Pos(x, y)), q)
        ensures g[q] != val && |g[q]| <= 1
      {
        ScannedPeer(g, val, x, y, q);
      }
    }
    if PeersClear(g, val, Index(Pos(x, y))) {
      PeersClearScans(g, val, x, y);
    }
  }

  /** Every other peer is visited by one of the three passes. */
  lemma ScannedPeer(g: seq<string>, val: string, x: int, y: int, q: int)
    requires IsGrid(g) && ValidPosition(x, y)
    requires RowClear(g, val, x, y) && ColClear(g, val, x, y) && BoxClear(g, val, x, y)
    requires 0 <= q < CellCount && q != Index(Pos(x, y)) && Peers(Index(Pos(x, y)), q)
    ensures g[q] != val && |g[q]| <= 1
  {
    IndexParts(x, y);
    IndexFromParts(q);
    if RowOf(q) == x {
      RowPassSees(g, val, x, y, q);
    } else if ColOf(q) == y {
      ColPassSees(g, val, x, y, q);
    } else {
      BoxPassSees(g, val, x, y, q);
    }
  }

  lemma RowPassSees(g: seq<string>, val: string, x: int, y: int, q: int)
    requires IsGrid(g) && ValidPosition(x, y) && RowClear(g, val, x, y)
    requires 0 <= q < CellCount && RowOf(q) == x && ColOf(q) != y
    ensures g[q] != val && |g[q]| <= 1
  {
    IndexFromParts(q);
    assert RowIndices(x)[ColOf(q)] == q;
  }

  lemma ColPassSees(g: seq<string>, val: string, x: int, y: int, q: int)
    requires IsGrid(g) && ValidPosition(x, y) && ColClear(g, val, x, y)
    requires 0 <= q < CellCount && ColOf(q) == y && RowOf(q) != x
    ensures g[q] != val && |g[q]| <= 1
  {
    IndexFromParts(q);
    assert ColIndices(y)[RowOf(q)] == q;
  }

  lemma BoxPassSees(g: seq<string>, val: string, x: int, y: int, q: int)
    requires IsGrid(g) && ValidPosition(x, y) && BoxClear(g, val, x, y)
    requires 0 <= q < CellCount && ColOf(q) != y && RowOf(q) != x && SameBox(Index(Pos(x, y)), q)
    ensures g[q] != val && |g[q]| <= 1
  {
    BoxCellMembership(x, y, q);
    var t :| 0 <= t < Size && BoxCell(x, y, t) == q;
  }

  /** Every cell the three passes visit is another peer. */
  lemma PeersClearScans(g: seq<string>, val: string, x: int, y: int)
    requires IsGrid(g) && ValidPosition(x, y)
    requires PeersClear(g, val, Index(Pos(x, y)))
    ensures RowClear(g, val, x, y) && ColClear(g, val, x, y) && BoxClear(g, val, x, y)
  {
    PeersClearRow(g, val, x, y);
    PeersClearCol(g, val, x, y);
    PeersClearBox(g, val, x, y);
  }

  lemma PeersClearRow(g: seq<string>, val: string, x: int, y: int)
    requires IsGrid(g) && ValidPosition(x, y)
    requires PeersClear(g, val, Index(Pos(x, y)))
    ensures RowClear(g, val, x, y)
  {
    var p := Index(Pos(x, y));
    forall i | 0 <= i < Size && i != y
      ensures g[RowIndices(x)[i]] != val && |g[RowIndices(x)[i]]| <= 1
    {
      IndexParts(x, i);
      IndexParts(x, y);
      assert Peers(p, RowIndices(x)[i]);
    }
  }

  lemma PeersClearCol(g: seq<string>, val: string, x: int, y: int)
    requires IsGrid(g) && ValidPosition(x, y)
    requires PeersClear(g, val, Index(Pos(x, y)))
    ensures ColClear(g, val, x, y)
  {
    var p := Index(Pos(x, y));
    forall i | 0 <= i < Size && i != x
      ensures g[ColIndices(y)[i]] != val && |g[ColIndices(y)[i]]| <= 1
    {
      IndexParts(i, y);
      IndexParts(x, y);
      assert Peers(p, ColIndices(y)[i]);
    }
  }

  lemma PeersClearBox(g: seq<string>, val: string, x: int, y: int)
    requires IsGrid(g) && ValidPosition(x, y)
    requires PeersClear(g, val, Index(Pos(x, y)))
    ensures BoxClear(g, val, x, y)
  {
    var p := Index(Pos(x, y));
    forall t | 0 <= t < Size && RowOf(BoxCell(x, y, t)) != x && ColOf(BoxCell(x, y, t)) != y
      ensures g[BoxCell(x, y, t)] != val && |g[BoxCell(x, y, t)]| <= 1
    {
      var q := BoxCell(x, y, t);
      BoxCellMembership(x, y, q);
      IndexParts(x, y);
      assert q != p && Peers(p, q);
    }
  }

  /** A board that passes `checkGame` has no conflicting cell. */
  lemma NoClashMeansNoConflict(g: seq<string>, x: int, y: int, unmodifiable: bool)
    requires IsGrid(g) && ValidPosition(x, y)
    requires NoClash(g)
    ensures CheckCoordinate(g, x, y, unmodifiable)
  {
    IndexParts(x, y);
  }
}
