/**
 * Board geometry of js/script.js: flat cell indices 0..80 in row-major
 * order, (row, column) positions where x is the row and y the column, and
 * the nine fixed 3x3 box centres.
 */
module Grid {
  import opened Basics

  /** Width and height of the board. */
  const Size: int := 9
  /** Number of cells on the board. */
  const CellCount: int := 81

  /** A position; `x` is the row (grows downwards), `y` the column. */
  datatype Pos = Pos(x: int, y: int)

  /** The arrow keys `moveInDirection` reacts to. */
  datatype Direction = Up | Down | Left | Right

  /** The flat index of an in-range position. */
  function Index(p: Pos): int
  {
    Size * p.x + p.y
  }

  /** JavaScript's `%` for a positive divisor: truncated, so the remainder has the dividend's sign. */
  function JsRem(a: int, b: int): (r: int)
    requires b > 0
    ensures a >= 0 ==> 0 <= r < b
    ensures a < 0 ==> -b < r <= 0
    ensures (a - r) % b == 0
  {
    if a >= 0 then
      RemUnique(a - a % b, b, a / b, 0);
      a % b
    else
      RemUnique(a + (-a) % b, b, -((-a) / b), 0);
      -((-a) % b)
  }

  /** A remainder is pinned by any quotient that yields it. */
  lemma RemUnique(x: int, b: int, q: int, r: int)
    requires b > 0 && 0 <= r < b && x == q * b + r
    ensures x % b == r
  {
    var d := q - x / b;
    assert d * b == x % b - r;
    if d >= 1 {
      MulMonotone(1, d, b);
    } else if d <= -1 {
      MulMonotone(d, -1, b);
    }
  }

  /**
   * `positionConversion(num, len)`: `[Math.floor(num / len), num % len]`.
   * Dafny's `/` by a positive divisor already floors; `%` is JavaScript's.
   */
  function PositionConversion(num: int, len: int): (r: Pos)
    requires len > 0
    ensures 0 <= num ==> r.x * len + r.y == num && 0 <= r.y < len && 0 <= r.x
    ensures 0 <= num < len * len ==> r.x < len
  {
    var r := Pos(num / len, JsRem(num, len));
    if 0 <= num then
      QuotientBelowLen(num, len);
      r
    else r
  }

  /** Euclidean division facts for a non-negative dividend. */
  lemma QuotientBelowLen(num: int, len: int)
    requires 0 <= num && len > 0
    ensures (num / len) * len + num % len == num
    ensures 0 <= num / len
    ensures num < len * len ==> num / len < len
  {
    var q := num / len;
    if num < len * len && q >= len {
      MulMonotone(len, q, len);
    }
  }

  /** Multiplying by a positive factor preserves order. */
  lemma {:induction false} MulMonotone(a: int, b: int, c: int)
    requires a <= b && c > 0
    ensures a * c <= b * c
  {
    assert b * c - a * c == (b - a) * c;
  }

  /** `validPosition(x, y)`: the coordinates lie on the 9x9 board. */
  function ValidPosition(x: int, y: int): bool
  {
    !(x < 0 || x > 8 || y < 0 || y > 8)
  }

  /** The valid positions are exactly the images of the 81 flat indices. */
  lemma ValidPositionIsConversionImage(x: int, y: int)
    ensures ValidPosition(x, y) <==>
            exists i :: 0 <= i < CellCount && PositionConversion(i, Size) == Pos(x, y)
  {
    if ValidPosition(x, y) {
      var i := Size * x + y;
      assert PositionConversion(i, Size) == Pos(x, y);
    }
  }

  /** `positionConversion` over the board is undone by `Index`. */
  lemma ConversionIndexRoundTrip(i: int)
    requires 0 <= i < CellCount
    ensures ValidPosition(PositionConversion(i, Size).x, PositionConversion(i, Size).y)
    ensures Index(PositionConversion(i, Size)) == i
  {
  }

  /**
   * `flatTo2d(arr, len)`: a `len` x `len` array whose slot
   * `[floor(i / len)][i % len]` holds `arr[i]`; slots never written stay
   * `undefined` (`None`). An `arr` longer than `len * len` makes the source
   * index a missing row, so it is excluded here.
   */
  method FlatTo2d<T>(arr: seq<T>, len: int) returns (grid: seq<seq<Option<T>>>)
    requires len > 0
    requires |arr| <= len * len
    ensures |grid| == len
    ensures forall i | 0 <= i < len :: |grid[i]| == len
    ensures forall p | 0 <= p < |arr| ::
              grid[PositionConversion(p, len).x][PositionConversion(p, len).y] == Some(arr[p])
    ensures forall p | |arr| <= p < len * len ::
              grid[PositionConversion(p, len).x][PositionConversion(p, len).y] == None
  {
    var row: seq<Option<T>> := seq(len, _ => None);
    grid := seq(len, _ => row);
    var i := 0;
    while i < |arr|
      invariant 0 <= i <= |arr|
      invariant |grid| == len
      invariant forall r | 0 <= r < len :: |grid[r]| == len
      invariant forall p | 0 <= p < len * len ::
                  grid[PositionConversion(p, len).x][PositionConversion(p, len).y] ==
                  (if p < i then Some(arr[p]) else None)
    {
      var at := PositionConversion(i, len);
      grid := grid[at.x := grid[at.x][at.y := Some(arr[i])]];
      forall p | 0 <= p < len * len
        ensures grid[PositionConversion(p, len).x][PositionConversion(p, len).y] ==
                (if p < i + 1 then Some(arr[p]) else None)
      {
        var q := PositionConversion(p, len);
        if q == at {
          assert p == q.x * len + q.y == i;
        }
      }
      i := i + 1;
    }
  }

  /** The centres of the nine boxes, in the source's iteration order. */
  const GridCenters: seq<Pos> := [
    Pos(1, 1), Pos(1, 4), Pos(1, 7),
    Pos(4, 1), Pos(4, 4), Pos(4, 7),
    Pos(7, 1), Pos(7, 4), Pos(7, 7)
  ]

  /**
   * Squared Euclidean distance. `dist` takes a square root, which is
   * monotone, so comparing squares orders the centres the same way.
   */
  function SqDist(x: int, y: int, c: Pos): int
  {
    Square(c.x - x) + Square(c.y - y)
  }

  /** `a * a`, written by recursion so that the solver meets no non-linear terms. */
  function Square(a: int): (r: int)
  {
    if a < 0 then SquareNat(-a) else SquareNat(a)
  }

  /** `n * n` for a natural number, by recursion. */
  function SquareNat(n: nat): nat
  {
    if n == 0 then 0 else SquareNat(n - 1) + 2 * n - 1
  }

  /** `Square` is the product it stands for. */
  lemma {:induction false} SquareIsProduct(a: int)
    ensures Square(a) == a * a
  {
    var n: nat := if a < 0 then -a else a;
    SquareNatIsProduct(n);
    assert n * n == a * a;
  }

  lemma {:induction false} SquareNatIsProduct(n: nat)
    ensures SquareNat(n) == n * n
  {
    if n > 0 {
      SquareNatIsProduct(n - 1);
    }
  }

  /** The facts about squares that distance comparisons on the board need. */
  lemma SquareFacts(a: int)
    ensures Square(a) >= 0
    ensures a != 0 ==> Square(a) >= 1
    ensures (a >= 2 || a <= -2) ==> Square(a) >= 4
    ensures -1 <= a <= 1 ==> Square(a) <= 1
  {
    if a < 0 {
      SquareNatFacts(-a);
    } else {
      SquareNatFacts(a);
    }
  }

  lemma {:induction false} SquareNatFacts(n: nat)
    ensures n >= 1 ==> SquareNat(n) >= 1
    ensures n >= 2 ==> SquareNat(n) >= 4
    ensures n <= 1 ==> SquareNat(n) <= 1
  {
    if n > 0 {
      SquareNatFacts(n - 1);
    }
  }

  /** Centre `i` is the first centre, in list order, at minimal distance from (x, y). */
  ghost predicate IsFirstNearest(x: int, y: int, i: int)
  {
    && 0 <= i < |GridCenters|
    && (forall k | 0 <= k < |GridCenters| :: SqDist(x, y, GridCenters[i]) <= SqDist(x, y, GridCenters[k]))
    && (forall k | 0 <= k < i :: SqDist(x, y, GridCenters[i]) < SqDist(x, y, GridCenters[k]))
  }

  /**
   * The loop of `closestGrid` from centre `k` on. `best` is the index held
   * in `centerPoint` (`None` while `least` is still unset; a distance of 0
   * would also read as unset in JavaScript, but it is never stored, since
   * an exact match returns first).
   */
  function ClosestFrom(x: int, y: int, k: int, best: Option<int>): (r: int)
    requires 0 <= k <= |GridCenters|
    requires best.None? <==> k == 0
    requires best.Some? ==> IsFirstNearestBefore(x, y, best.value, k)
    requires forall m | 0 <= m < k :: GridCenters[m] != Pos(x, y)
    ensures IsFirstNearest(x, y, r)
    decreases |GridCenters| - k
  {
    if k == |GridCenters| then best.value
    else
      var c := GridCenters[k];
      if x == c.x && y == c.y then
        ExactIsNearest(x, y, k);
        k
      else if best.None? || SqDist(x, y, c) < SqDist(x, y, GridCenters[best.value]) then
        NewNearest(x, y, k, best);
        ClosestFrom(x, y, k + 1, Some(k))
      else
        KeptNearest(x, y, k, best.value);
        ClosestFrom(x, y, k + 1, best)
  }

  /** A centre at (x, y) itself, after centres that are not, is the first nearest. */
  lemma ExactIsNearest(x: int, y: int, k: int)
    requires 0 <= k < |GridCenters| && GridCenters[k] == Pos(x, y)
    requires forall m | 0 <= m < k :: GridCenters[m] != Pos(x, y)
    ensures IsFirstNearest(x, y, k)
  {
    assert SqDist(x, y, GridCenters[k]) == 0;
    forall m | 0 <= m < |GridCenters|
      ensures 0 <= SqDist(x, y, GridCenters[m])
      ensures m < k ==> 0 < SqDist(x, y, GridCenters[m])
    {
      SquareFacts(GridCenters[m].x - x);
      SquareFacts(GridCenters[m].y - y);
    }
  }

  /** A centre strictly nearer than the best so far becomes the best. */
  lemma NewNearest(x: int, y: int, k: int, best: Option<int>)
    requires 0 <= k < |GridCenters|
    requires best.None? <==> k == 0
    requires best.Some? ==> IsFirstNearestBefore(x, y, best.value, k)
    requires best.None? || SqDist(x, y, GridCenters[k]) < SqDist(x, y, GridCenters[best.value])
    ensures IsFirstNearestBefore(x, y, k, k + 1)
  {
  }

  /** A centre no nearer than the best so far leaves it the best. */
  lemma KeptNearest(x: int, y: int, k: int, i: int)
    requires 0 <= k < |GridCenters|
    requires IsFirstNearestBefore(x, y, i, k)
    requires SqDist(x, y, GridCenters[i]) <= SqDist(x, y, GridCenters[k])
    ensures IsFirstNearestBefore(x, y, i, k + 1)
  {
  }

  /** Centre `i` is the first nearest among the centres before `k`. */
  ghost predicate IsFirstNearestBefore(x: int, y: int, i: int, k: int)
    requires 0 <= k <= |GridCenters|
  {
    && 0 <= i < k
    && (forall m | 0 <= m < k :: SqDist(x, y, GridCenters[i]) <= SqDist(x, y, GridCenters[m]))
    && (forall m | 0 <= m < i :: SqDist(x, y, GridCenters[i]) < SqDist(x, y, GridCenters[m]))
  }

  /**
   * `closestGrid(x, y)`: the box centre nearest to (x, y), the first one in
   * list order on a tie; an exact centre is returned as is.
   */
  function ClosestGrid(x: int, y: int): (r: Pos)
    ensures exists i :: IsFirstNearest(x, y, i) && r == GridCenters[i]
    ensures Pos(x, y) in GridCenters ==> r == Pos(x, y)
  {
    var i := ClosestFrom(x, y, 0, None);
    NearestOfExactCentre(x, y, i);
    GridCenters[i]
  }

  /** A position that is itself a centre is its own first nearest centre. */
  lemma NearestOfExactCentre(x: int, y: int, i: int)
    requires IsFirstNearest(x, y, i)
    ensures Pos(x, y) in GridCenters ==> GridCenters[i] == Pos(x, y)
  {
    if Pos(x, y) in GridCenters {
      var m :| 0 <= m < |GridCenters| && GridCenters[m] == Pos(x, y);
      assert SqDist(x, y, GridCenters[m]) == 0;
      var c := GridCenters[i];
      SquareFacts(c.x - x);
      SquareFacts(c.y - y);
    }
  }

  /** The centre of the box holding (x, y), by arithmetic. */
  function BoxCenter(x: int, y: int): Pos
  {
    Pos(3 * (x / 3) + 1, 3 * (y / 3) + 1)
  }

  /** Every centre lies on the board. */
  lemma CenterOnBoard(k: int)
    requires 0 <= k < |GridCenters|
    ensures ValidPosition(GridCenters[k].x, GridCenters[k].y)
  {
  }

  /** The centres listed by arithmetic: centre k sits in box row k / 3, box column k % 3. */
  lemma CenterFormula(k: int)
    requires 0 <= k < |GridCenters|
    ensures GridCenters[k] == Pos(3 * (k / 3) + 1, 3 * (k % 3) + 1)
  {
  }

  /** Index in `GridCenters` of the centre of the box holding (x, y). */
  function OwnCenterIndex(x: int, y: int): int
  {
    3 * (x / 3) + y / 3
  }

  /** A board coordinate's box band (0, 1 or 2) and its distance to the band's middle line. */
  lemma BandFacts(v: int)
    requires 0 <= v <= 8
    ensures 0 <= v / 3 <= 2
    ensures -1 <= 3 * (v / 3) + 1 - v <= 1
  {
    if v < 3 {
      assert v / 3 == 0;
    } else if v < 6 {
      assert v / 3 == 1;
    } else {
      assert v / 3 == 2;
    }
  }

  /** Every other centre is strictly farther from a cell than its own box centre. */
  lemma OwnCenterStrictlyNearest(x: int, y: int, k: int)
    requires ValidPosition(x, y)
    requires 0 <= k < |GridCenters| && k != OwnCenterIndex(x, y)
    ensures 0 <= OwnCenterIndex(x, y) < |GridCenters|
    ensures GridCenters[OwnCenterIndex(x, y)] == BoxCenter(x, y)
    ensures SqDist(x, y, GridCenters[k]) > SqDist(x, y, BoxCenter(x, y))
  {
    OwnCenterListed(x, y);
    OwnCenterNear(x, y);
    OtherCenterFar(x, y, k);
  }

  /** A cell is within squared distance 2 of its own box centre. */
  lemma OwnCenterNear(x: int, y: int)
    requires ValidPosition(x, y)
    ensures SqDist(x, y, BoxCenter(x, y)) <= 2
  {
    BandFacts(x);
    BandFacts(y);
    var o := BoxCenter(x, y);
    SquarePair(o.x - x, o.y - y);
  }

  /** Any other centre is at squared distance 4 or more. */
  lemma OtherCenterFar(x: int, y: int, k: int)
    requires ValidPosition(x, y)
    requires 0 <= k < |GridCenters| && k != OwnCenterIndex(x, y)
    ensures SqDist(x, y, GridCenters[k]) >= 4
  {
    BandFacts(x);
    BandFacts(y);
    var c := GridCenters[k];
    CenterFormula(k);
    var ka, kb := k / 3, k % 3;
    assert k == 3 * ka + kb;
    if ka != x / 3 {
      BandGap(x, x / 3, ka);
    } else {
      BandGap(y, y / 3, kb);
    }
    SquarePair(c.x - x, c.y - y);
  }

  /** Two offsets of at most 1 give a squared distance of at most 2; one offset of 2 or more gives at least 4. */
  lemma SquarePair(a: int, b: int)
    ensures -1 <= a <= 1 && -1 <= b <= 1 ==> Square(a) + Square(b) <= 2
    ensures a >= 2 || a <= -2 || b >= 2 || b <= -2 ==> Square(a) + Square(b) >= 4
  {
    SquareFacts(a);
    SquareFacts(b);
  }

  /** The middle line of another band lies at least 2 away from a coordinate of band a. */
  lemma BandGap(v: int, a: int, other: int)
    requires -1 <= 3 * a + 1 - v <= 1 && other != a
    ensures 3 * other + 1 - v >= 2 || 3 * other + 1 - v <= -2
  {
  }

  /** The own box centre of a cell is listed at `OwnCenterIndex`. */
  lemma OwnCenterListed(x: int, y: int)
    requires ValidPosition(x, y)
    ensures 0 <= OwnCenterIndex(x, y) < |GridCenters|
    ensures GridCenters[OwnCenterIndex(x, y)] == BoxCenter(x, y)
  {
    BandFacts(x);
    BandFacts(y);
    var own := OwnCenterIndex(x, y);
    assert own / 3 == x / 3 && own % 3 == y / 3;
    CenterFormula(own);
  }

  /** The first nearest centre of a cell is the centre of its own box. */
  lemma FirstNearestIsOwnCenter(x: int, y: int, i: int)
    requires ValidPosition(x, y)
    requires IsFirstNearest(x, y, i)
    ensures GridCenters[i] == BoxCenter(x, y)
  {
    var own := OwnCenterIndex(x, y);
    if i != own {
      OwnCenterStrictlyNearest(x, y, i);
    } else {
      OwnCenterListed(x, y);
    }
  }

  /** On the board, `closestGrid` always finds the centre of the cell's own box. */
  lemma ClosestGridIsOwnBox(x: int, y: int)
    requires ValidPosition(x, y)
    ensures ClosestGrid(x, y) == BoxCenter(x, y)
  {
    var r := ClosestGrid(x, y);
    var i :| IsFirstNearest(x, y, i) && r == GridCenters[i];
    FirstNearestIsOwnCenter(x, y, i);
  }

  /**
   * `moveInDirection`: one step in the arrow's direction, or no move at
   * all when that step would leave the board.
   */
  function Move(sel: Pos, d: Direction): (r: Pos)
    ensures ValidPosition(sel.x, sel.y) ==> ValidPosition(r.x, r.y)
    ensures r == sel || Step(sel, d) == r
    ensures ValidPosition(sel.x, sel.y) ==>
      (r == Step(sel, d) <==> ValidPosition(Step(sel, d).x, Step(sel, d).y))
  {
    var next := Step(sel, d);
    if ValidPosition(next.x, next.y) then next else sel
  }

  /** The neighbouring position in a direction, possibly off the board. */
  function Step(p: Pos, d: Direction): Pos
  {
    match d
    case Up => Pos(p.x - 1, p.y)
    case Down => Pos(p.x + 1, p.y)
    case Left => Pos(p.x, p.y - 1)
    case Right => Pos(p.x, p.y + 1)
  }

  /** The opposite arrow. */
  function Opposite(d: Direction): Direction
  {
    match d
    case Up => Down
    case Down => Up
    case Left => Right
    case Right => Left
  }

  /** A move that happened is undone by the opposite arrow. */
  lemma MoveThenOppositeReturns(sel: Pos, d: Direction)
    requires ValidPosition(sel.x, sel.y)
    requires Move(sel, d) != sel
    ensures Move(Move(sel, d), Opposite(d)) == sel
  {
  }

  // ----- Units: the cells a row, a column or a box check visits -----

  /** Row of a flat index. */
  function RowOf(p: int): int
  {
    p / Size
  }

  /** Column of a flat index. */
  function ColOf(p: int): int
  {
    p % Size
  }

  /** Two cells lie in the same 3x3 box. */
  predicate SameBox(p: int, q: int)
  {
    RowOf(p) / 3 == RowOf(q) / 3 && ColOf(p) / 3 == ColOf(q) / 3
  }

  /** Two cells share a row, a column or a box (every cell is its own peer). */
  predicate Peers(p: int, q: int)
  {
    RowOf(p) == RowOf(q) || ColOf(p) == ColOf(q) || SameBox(p, q)
  }

  /** The cells `checkRow(x)` visits, left to right. */
  function RowIndices(x: int): seq<int>
  {
    seq(Size, i => Size * x + i)
  }

  /** The cells `checkCol(y)` visits, top to bottom. */
  function ColIndices(y: int): seq<int>
  {
    seq(Size, i => Size * i + y)
  }

  /** The cells of the box around centre `c`, row by row, as `checkGrid` visits them. */
  function BoxIndices(c: Pos): seq<int>
  {
    seq(Size, k => Size * (c.x - 1 + k / 3) + (c.y - 1 + k % 3))
  }

  /** Row and column of a cell index built from them. */
  lemma IndexParts(x: int, y: int)
    requires 0 <= y < Size
    ensures RowOf(Size * x + y) == x && ColOf(Size * x + y) == y
  {
  }

  /** A flat index on the board is rebuilt from its row and column. */
  lemma IndexFromParts(p: int)
    requires 0 <= p < CellCount
    ensures 0 <= RowOf(p) < Size && 0 <= ColOf(p) < Size
    ensures p == Size * RowOf(p) + ColOf(p)
  {
  }

  /** Row `x` holds exactly the cells whose row is `x`. */
  lemma RowMembership(x: int, p: int)
    requires 0 <= x < Size
    ensures p in RowIndices(x) <==> 0 <= p < CellCount && RowOf(p) == x
  {
    if 0 <= p < CellCount && RowOf(p) == x {
      IndexFromParts(p);
      assert RowIndices(x)[ColOf(p)] == p;
    }
    if p in RowIndices(x) {
      var i :| 0 <= i < Size && RowIndices(x)[i] == p;
      IndexParts(x, i);
    }
  }

  /** Column `y` holds exactly the cells whose column is `y`. */
  lemma ColMembership(y: int, p: int)
    requires 0 <= y < Size
    ensures p in ColIndices(y) <==> 0 <= p < CellCount && ColOf(p) == y
  {
    if 0 <= p < CellCount && ColOf(p) == y {
      IndexFromParts(p);
      assert ColIndices(y)[RowOf(p)] == p;
    }
    if p in ColIndices(y) {
      var i :| 0 <= i < Size && ColIndices(y)[i] == p;
      IndexParts(i, y);
    }
  }

  /** Box `k` holds exactly the cells whose own box centre is centre `k`. */
  lemma BoxMembership(k: int, p: int)
    requires 0 <= k < |GridCenters|
    ensures p in BoxIndices(GridCenters[k]) <==>
            0 <= p < CellCount && OwnCenterIndex(RowOf(p), ColOf(p)) == k
  {
    if 0 <= p < CellCount && OwnCenterIndex(RowOf(p), ColOf(p)) == k {
      BoxMembershipIf(k, p);
    }
    if p in BoxIndices(GridCenters[k]) {
      BoxMembershipOnlyIf(k, p);
    }
  }

  lemma BoxMembershipIf(k: int, p: int)
    requires 0 <= k < |GridCenters|
    requires 0 <= p < CellCount && OwnCenterIndex(RowOf(p), ColOf(p)) == k
    ensures p in BoxIndices(GridCenters[k])
  {
    CenterFormula(k);
    var c := GridCenters[k];
    IndexFromParts(p);
    var r, s := RowOf(p), ColOf(p);
    BandFacts(r);
    BandFacts(s);
    assert k / 3 == r / 3 && k % 3 == s / 3;
    var t := 3 * (r % 3) + s % 3;
    assert t / 3 == r % 3 && t % 3 == s % 3;
    assert c.x - 1 + t / 3 == r;
    assert c.y - 1 + t % 3 == s;
    assert BoxIndices(c)[t] == p;
  }

  lemma BoxMembershipOnlyIf(k: int, p: int)
    requires 0 <= k < |GridCenters|
    requires p in BoxIndices(GridCenters[k])
    ensures 0 <= p < CellCount && OwnCenterIndex(RowOf(p), ColOf(p)) == k
  {
    CenterFormula(k);
    var c := GridCenters[k];
    var t :| 0 <= t < Size && BoxIndices(c)[t] == p;
    var r, s := c.x - 1 + t / 3, c.y - 1 + t % 3;
    assert 0 <= t / 3 <= 2 && 0 <= t % 3 <= 2;
    assert r == 3 * (k / 3) + t / 3 && s == 3 * (k % 3) + t % 3;
    IndexParts(r, s);
    assert r / 3 == k / 3 && s / 3 == k % 3;
  }

  /** Each unit lists nine distinct cells. */
  lemma UnitsNoDup(i: int)
    requires 0 <= i < Size
    ensures NoDup(RowIndices(i)) && NoDup(ColIndices(i)) && NoDup(BoxIndices(GridCenters[i]))
  {
    CenterFormula(i);
    var c := GridCenters[i];
    forall a, b | 0 <= a < b < Size
      ensures BoxIndices(c)[a] != BoxIndices(c)[b]
    {
      IndexParts(c.x - 1 + a / 3, c.y - 1 + a % 3);
      IndexParts(c.x - 1 + b / 3, c.y - 1 + b % 3);
    }
  }
}
