/**
 * `initializeGrid(hintNum)` of js/script.js: clear the board, fill it with
 * the backtracker, fix every cell, shuffle the positions 0 .. 80 and erase
 * the cells popped from the end of the shuffled list, one per missing hint.
 */
module Generate {
  import opened Basics
  import opened Grid
  import opened Rules
  import opened Board
  import opened Solver
  import opened Shuffle

  /** The grid `clearBoard` leaves: every cell "". */
  const EmptyGrid: seq<string> := seq(CellCount, p => "")

  // ----- The empty grid has a solution -----

  /** The digit index of cell (x, y) in a fixed solved grid (rows shifted by 3, bands by 1). */
  function PatternIndex(x: int, y: int): int
  {
    (3 * (x % 3) + x / 3 + y) % 9
  }

  /** Adding the same amount to two different residues keeps them apart modulo 9. */
  lemma ShiftDistinct(a: int, b: int, k: int)
    requires 0 <= a < 9 && 0 <= b < 9 && 0 <= k < 9 && a != b
    ensures (a + k) % 9 != (b + k) % 9
  {
    assert (a + k) % 9 == if a + k < 9 then a + k else a + k - 9;
    assert (b + k) % 9 == if b + k < 9 then b + k else b + k - 9;
  }

  /** A coordinate splits into its band and its place in the band. */
  lemma BandParts(v: int)
    requires 0 <= v < 9
    ensures v == 3 * (v / 3) + v % 3 && 0 <= v / 3 < 3 && 0 <= v % 3 < 3
  {
  }

  lemma PatternRowDistinct(x: int, y: int, y2: int)
    requires 0 <= x < 9 && 0 <= y < 9 && 0 <= y2 < 9 && y != y2
    ensures PatternIndex(x, y) != PatternIndex(x, y2)
  {
    BandParts(x);
    ShiftDistinct(y, y2, 3 * (x % 3) + x / 3);
  }

  lemma PatternColDistinct(x: int, x2: int, y: int)
    requires 0 <= x < 9 && 0 <= x2 < 9 && 0 <= y < 9 && x != x2
    ensures PatternIndex(x, y) != PatternIndex(x2, y)
  {
    BandParts(x);
    BandParts(x2);
    var a, a2 := 3 * (x % 3) + x / 3, 3 * (x2 % 3) + x2 / 3;
    assert a != a2;
    ShiftDistinct(a, a2, y);
  }

  lemma PatternBoxDistinct(x: int, y: int, x2: int, y2: int)
    requires 0 <= x < 9 && 0 <= x2 < 9 && 0 <= y < 9 && 0 <= y2 < 9
    requires x / 3 == x2 / 3 && y / 3 == y2 / 3 && (x != x2 || y != y2)
    ensures PatternIndex(x, y) != PatternIndex(x2, y2)
  {
    BandParts(x);
    BandParts(x2);
    BandParts(y);
    BandParts(y2);
    var u, u2 := 3 * (x % 3) + y % 3, 3 * (x2 % 3) + y2 % 3;
    var k := x / 3 + 3 * (y / 3);
    assert u != u2;
    assert PatternIndex(x, y) == (u + k) % 9;
    assert PatternIndex(x2, y2) == (u2 + k) % 9;
    ShiftDistinct(u, u2, k);
  }

  /** The digit text for index 0 .. 8. */
  function DigitText(i: int): (s: string)
    requires 0 <= i < 9
    ensures IsDigit(s)
  {
    [(i + 49) as char]
  }

  function PatternGrid(): (g: seq<string>)
    ensures IsGrid(g)
  {
    seq(CellCount, p requires 0 <= p < CellCount => DigitText(PatternIndex(RowOf(p), ColOf(p))))
  }

  /** Two distinct peers get different digits in the pattern. */
  lemma PatternPeersDiffer(p: int, q: int)
    requires 0 <= p < CellCount && 0 <= q < CellCount && p != q && Peers(p, q)
    ensures PatternGrid()[p] != PatternGrid()[q]
  {
    IndexFromParts(p);
    IndexFromParts(q);
    var x, y, x2, y2 := RowOf(p), ColOf(p), RowOf(q), ColOf(q);
    if x == x2 {
      PatternRowDistinct(x, y, y2);
    } else if y == y2 {
      PatternColDistinct(x, x2, y);
    } else {
      PatternBoxDistinct(x, y, x2, y2);
    }
    var i, j := PatternIndex(x, y), PatternIndex(x2, y2);
    assert DigitText(i)[0] != DigitText(j)[0];
  }

  /** The empty grid can be solved, so generation never ends with an unfilled grid. */
  lemma EmptyGridSolvable()
    ensures Solvable(EmptyGrid)
  {
    var h := PatternGrid();
    forall p, q | 0 <= p < CellCount && 0 <= q < CellCount && p != q && Peers(p, q) && h[p] != ""
      ensures h[p] != h[q]
    {
      PatternPeersDiffer(p, q);
    }
    assert NoClash(h);
    assert DigitCompletion(h, EmptyGrid);
  }

  // ----- Distinct positions -----

  /** The list `randomArray` starts as: 0, 1, ..., 80. */
  const AllPositions: seq<int> := seq(CellCount, i => i)

  lemma {:induction false} NoDupCount<T>(s: seq<T>, v: T)
    requires NoDup(s)
    ensures multiset(s)[v] <= 1
  {
    if s != [] {
      assert s == [s[0]] + s[1..];
      assert NoDup(s[1..]) by {
        forall i, j | 0 <= i < j < |s[1..]|
          ensures s[1..][i] != s[1..][j]
        {
          assert s[1..][i] == s[i + 1] && s[1..][j] == s[j + 1];
        }
      }
      NoDupCount(s[1..], v);
      if s[0] == v {
        assert v !in s[1..] by {
          forall k | 0 <= k < |s[1..]|
            ensures s[1..][k] != v
          {
            assert s[1..][k] == s[k + 1];
          }
        }
      }
    }
  }

  /** Rearranging distinct elements keeps them distinct. */
  lemma PermutationNoDup<T>(a: seq<T>, b: seq<T>)
    requires multiset(a) == multiset(b) && NoDup(b)
    ensures NoDup(a)
  {
    forall i, j | 0 <= i < j < |a|
      ensures a[i] != a[j]
    {
      if a[i] == a[j] {
        var v := a[i];
        assert a == a[..i] + [a[i]] + a[i + 1..j] + [a[j]] + a[j + 1..];
        assert multiset(a)[v] >= 2;
        NoDupCount(b, v);
      }
    }
  }

  /** The shuffled positions are 0 .. 80, each once. */
  lemma ShuffledPositions(js: seq<int>)
    requires FisherYatesChoices(js, CellCount)
    ensures NoDup(FisherYates(AllPositions, js))
    ensures forall k | 0 <= k < CellCount :: 0 <= FisherYates(AllPositions, js)[k] < CellCount
  {
    var order := FisherYates(AllPositions, js);
    PermutationNoDup(order, AllPositions);
    forall k | 0 <= k < CellCount
      ensures 0 <= order[k] < CellCount
    {
      assert order[k] in multiset(AllPositions);
    }
  }

  // ----- initializeGrid -----

  /** The number of cells `initializeGrid` erases: 81 - hintNum, and none once hintNum reaches 81. */
  function EraseCount(hintNum: nat): (k: nat)
    ensures k <= CellCount
    ensures k + hintNum >= CellCount && (hintNum <= CellCount ==> k + hintNum == CellCount)
  {
    if hintNum >= CellCount then 0 else CellCount - hintNum
  }

  /**
   * `initializeGrid(hintNum)`, with the choices of the shuffle as `js`.
   * Returns the new board, the solved grid the backtracker produced and
   * the erased positions in the order they were popped.
   */
  method InitializeGrid(b: Board, hintNum: nat, js: seq<int>)
    returns (r: Board, solution: seq<string>, erased: seq<int>)
    requires IsBoard(b)
    requires FisherYatesChoices(js, CellCount)
    ensures IsBoard(r) && IsGrid(solution)
    ensures CheckSolution(solution)
    ensures |erased| == EraseCount(hintNum) && NoDup(erased)
    ensures forall k | 0 <= k < |erased| :: 0 <= erased[k] < CellCount
    ensures forall p | 0 <= p < CellCount && p in erased :: r[p] == EmptyCell
    ensures forall p | 0 <= p < CellCount && p !in erased :: r[p] == Cell(solution[p], true, [])
    ensures NoClash(Values(r))
    ensures |Givens(r)| == CellCount - EraseCount(hintNum)
    ensures forall p | 0 <= p < CellCount :: IsDigit(solution[p])
    ensures DigitCompletion(solution, Values(r)) && Solvable(Values(r))
  {
    solution := FillCleared(b);
    erased := ErasureOrder(hintNum, js);
    r := BuildBoard(solution, erased);
    GivensCount(r, erased);
    forall p | 0 <= p < CellCount
      ensures r[p].value == "" || r[p].value == solution[p]
    {
      if p in erased {
        assert r[p] == EmptyCell;
      }
    }
    PuzzleSolvable(r, solution);
  }

  /** Fix every cell of the solved grid, then erase the popped positions. */
  method BuildBoard(solution: seq<string>, erased: seq<int>) returns (r: Board)
    requires IsGrid(solution) && CheckSolution(solution)
    requires forall k | 0 <= k < |erased| :: 0 <= erased[k] < CellCount
    ensures IsBoard(r)
    ensures forall p | 0 <= p < CellCount && p in erased :: r[p] == EmptyCell
    ensures forall p | 0 <= p < CellCount && p !in erased :: r[p] == Cell(solution[p], true, [])
    ensures NoClash(Values(r))
  {
    var filled := FixAll(solution);
    r := ErasePositions(filled, erased);
    forall p | 0 <= p < CellCount
      ensures r[p].value == "" || r[p].value == solution[p]
    {
      if p !in erased {
        assert r[p] == filled[p];
      }
    }
    GeneratedHasNoClash(r, solution);
  }

  /** `clearBoard(); backTrackMe(sudokuGrid)`: the backtracker always fills a cleared board. */
  method FillCleared(b: Board) returns (solution: seq<string>)
    requires IsBoard(b)
    ensures IsGrid(solution) && CheckSolution(solution)
    ensures forall p | 0 <= p < CellCount :: IsDigit(solution[p])
  {
    var cleared := ClearBoard(b);
    assert Values(cleared) == EmptyGrid;
    EmptyGridSolvable();
    assert EmptyGrid[0] == "";
    var ok;
    ok, solution := BackTrack(Values(cleared));
    forall p | 0 <= p < CellCount
      ensures IsDigit(solution[p])
    {
      assert EmptyGrid[p] == "";
    }
  }

  /** Shuffle 0 .. 80 and pop one position per missing hint. */
  method ErasureOrder(hintNum: nat, js: seq<int>) returns (erased: seq<int>)
    requires FisherYatesChoices(js, CellCount)
    ensures |erased| == EraseCount(hintNum) && NoDup(erased)
    ensures forall k | 0 <= k < |erased| :: 0 <= erased[k] < CellCount
  {
    var order := FisherYates(AllPositions, js);
    ShuffledPositions(js);
    erased := PopPositions(order, EraseCount(hintNum));
    ErasedDistinct(order, erased);
  }

  /** Every cell becomes unmodifiable, holding the text of the filled grid. */
  function FixAll(g: seq<string>): (r: Board)
    requires IsGrid(g)
    ensures IsBoard(r) && Values(r) == g
    ensures forall p | 0 <= p < CellCount :: r[p] == Cell(g[p], true, [])
  {
    var r := seq(CellCount, p requires 0 <= p < CellCount => Cell(g[p], true, []));
    assert Values(r) == g;
    r
  }

  /** `positions.push(randomArray.pop())`, `count` times: the last `count` entries, last first. */
  method PopPositions(order: seq<int>, count: nat) returns (erased: seq<int>)
    requires count <= |order|
    ensures |erased| == count
    ensures forall t | 0 <= t < count :: erased[t] == order[|order| - 1 - t]
  {
    var randomArray := order;
    erased := [];
    var i := 0;
    while i < count
      invariant 0 <= i <= count
      invariant randomArray == order[..|order| - i]
      invariant |erased| == i
      invariant forall t | 0 <= t < i :: erased[t] == order[|order| - 1 - t]
    {
      erased := erased + [randomArray[|randomArray| - 1]];
      randomArray := randomArray[..|randomArray| - 1];
      i := i + 1;
    }
  }

  /** Each popped cell gets the text "" and becomes modifiable. */
  method ErasePositions(filled: Board, erased: seq<int>) returns (r: Board)
    requires IsBoard(filled)
    requires forall k | 0 <= k < |erased| :: 0 <= erased[k] < CellCount
    requires forall p | 0 <= p < CellCount :: filled[p].notes == []
    ensures IsBoard(r)
    ensures forall p | 0 <= p < CellCount :: r[p] == if p in erased then EmptyCell else filled[p]
  {
    r := filled;
    var k := 0;
    while k < |erased|
      invariant 0 <= k <= |erased|
      invariant IsBoard(r)
      invariant forall p | 0 <= p < CellCount ::
        r[p] == if p in erased[..k] then EmptyCell else filled[p]
    {
      var pos := erased[k];
      r := r[pos := r[pos].(value := "", fixed := false)];
      assert erased[..k + 1] == erased[..k] + [pos];
      k := k + 1;
    }
    assert erased[..k] == erased;
  }

  /** The popped positions are distinct cells of the board. */
  lemma ErasedDistinct(order: seq<int>, erased: seq<int>)
    requires |order| == CellCount && NoDup(order)
    requires forall k | 0 <= k < CellCount :: 0 <= order[k] < CellCount
    requires |erased| <= CellCount
    requires forall t | 0 <= t < |erased| :: erased[t] == order[CellCount - 1 - t]
    ensures NoDup(erased)
    ensures forall k | 0 <= k < |erased| :: 0 <= erased[k] < CellCount
  {
  }

  /** A board whose texts are either "" or those of a solved grid has no clash. */
  lemma GeneratedHasNoClash(r: Board, solution: seq<string>)
    requires IsBoard(r) && IsGrid(solution) && CheckSolution(solution)
    requires forall p | 0 <= p < CellCount :: r[p].value == "" || r[p].value == solution[p]
    ensures NoClash(Values(r))
  {
    var g := Values(r);
    forall p | 0 <= p < CellCount
      ensures g[p] == "" || g[p] == solution[p]
    {
      assert g[p] == r[p].value;
    }
    assert NoClash(solution);
    NoClashOfPart(solution, g);
  }

  /** The solution the board was cut from completes it. */
  lemma PuzzleSolvable(r: Board, solution: seq<string>)
    requires IsBoard(r) && IsGrid(solution) && CheckSolution(solution)
    requires forall p | 0 <= p < CellCount :: IsDigit(solution[p])
    requires forall p | 0 <= p < CellCount :: r[p].value == "" || r[p].value == solution[p]
    ensures DigitCompletion(solution, Values(r)) && Solvable(Values(r))
  {
    var g := Values(r);
    forall p | 0 <= p < CellCount
      ensures if g[p] == "" then IsDigit(solution[p]) else solution[p] == g[p]
    {
      assert g[p] == r[p].value;
    }
    assert DigitCompletion(solution, g);
    assert NoClash(solution);
  }

  // ----- How many hints -----

  /** The given cells: the unmodifiable ones. */
  function Givens(b: Board): (s: set<int>)
    requires IsBoard(b)
    ensures forall p | p in s :: 0 <= p < CellCount && b[p].fixed
  {
    set p | 0 <= p < CellCount && b[p].fixed
  }

  /** The indices 0 .. n - 1, as a set. */
  function Below(n: nat): (s: set<int>)
    ensures forall p :: p in s <==> 0 <= p < n
    ensures |s| == n
  {
    if n == 0 then {} else Below(n - 1) + {n - 1}
  }

  lemma {:induction false} NoDupCard(s: seq<int>)
    requires NoDup(s)
    ensures |set x | x in s| == |s|
  {
    if s != [] {
      var rest := s[1..];
      assert NoDup(rest) by {
        forall i, j | 0 <= i < j < |rest|
          ensures rest[i] != rest[j]
        {
          assert rest[i] == s[i + 1] && rest[j] == s[j + 1];
        }
      }
      NoDupCard(rest);
      assert s[0] !in rest by {
        forall k | 0 <= k < |rest|
          ensures rest[k] != s[0]
        {
          assert rest[k] == s[k + 1];
        }
      }
      assert s == [s[0]] + rest;
      assert (set x | x in s) == {s[0]} + (set x | x in rest);
    }
  }

  /** Erasing distinct cells of a fully given board leaves one hint per cell not erased. */
  lemma GivensCount(r: Board, erased: seq<int>)
    requires IsBoard(r) && NoDup(erased)
    requires forall k | 0 <= k < |erased| :: 0 <= erased[k] < CellCount
    requires forall p | 0 <= p < CellCount :: r[p].fixed <==> p !in erased
    ensures |Givens(r)| == CellCount - |erased|
  {
    var all := Below(CellCount);
    var gone := set x | x in erased;
    assert Givens(r) == all - gone;
    assert gone <= all;
    NoDupCard(erased);
    assert (all - gone) + gone == all;
  }
}
