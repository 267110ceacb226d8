/**
 * The randomised backtracker of js/script.js: `findEmptySpace` and
 * `backTrackMe`. The candidate picked by `Math.random` is a free choice
 * among the candidates still left.
 */
module Solver {
  import opened Basics
  import opened Grid
  import opened Rules

  /** A text the backtracker can place: one of "1" .. "9". */
  predicate IsDigit(s: string)
  {
    |s| == 1 && '1' <= s[0] <= '9'
  }

  /** The candidate list of `backTrackMe`, as texts. */
  const Candidates: seq<string> := ["1", "2", "3", "4", "5", "6", "7", "8", "9"]

  lemma DigitsListed(d: string)
    ensures IsDigit(d) <==> d in Candidates
  {
    if IsDigit(d) {
      assert d == [d[0]];
    }
  }

  // ----- findEmptySpace -----

  /** The first empty cell at flat index p or later, or `CellCount` when there is none. */
  function FirstEmptyFrom(g: seq<string>, p: int): (r: int)
    requires IsGrid(g) && 0 <= p <= CellCount
    ensures p <= r <= CellCount
    ensures r < CellCount ==> g[r] == ""
    ensures forall q | p <= q < r :: g[q] != ""
    decreases CellCount - p
  {
    if p == CellCount then CellCount
    else if g[p] == "" then p
    else FirstEmptyFrom(g, p + 1)
  }

  /**
   * `findEmptySpace`: the first cell holding "" in row-major order, or
   * (-1, -1) when every cell holds a text.
   */
  function FindEmptySpace(g: seq<string>): (r: Pos)
    requires IsGrid(g)
    ensures r == Pos(-1, -1) <==> Complete(g)
    ensures r != Pos(-1, -1) ==> ValidPosition(r.x, r.y) && g[Index(r)] == ""
    ensures r != Pos(-1, -1) ==> forall q | 0 <= q < Index(r) :: g[q] != ""
  {
    var p := FirstEmptyFrom(g, 0);
    if p == CellCount then Pos(-1, -1)
    else
      ConversionIndexRoundTrip(p);
      PositionConversion(p, Size)
  }

  // ----- Counting empty cells (the backtracker's measure) -----

  function CountEmptyFrom(g: seq<string>, p: int): (n: nat)
    requires IsGrid(g) && 0 <= p <= CellCount
    ensures n == 0 <==> forall q | p <= q < CellCount :: g[q] != ""
    decreases CellCount - p
  {
    if p == CellCount then 0
    else (if g[p] == "" then 1 else 0) + CountEmptyFrom(g, p + 1)
  }

  function CountEmpty(g: seq<string>): (n: nat)
    requires IsGrid(g)
    ensures n == 0 <==> Complete(g)
  {
    CountEmptyFrom(g, 0)
  }

  /** Filling one empty cell leaves one empty cell fewer. */
  lemma {:induction false} FillLowersCount(g: seq<string>, p: int, v: string, from: int)
    requires IsGrid(g) && 0 <= p < CellCount && g[p] == "" && v != ""
    requires 0 <= from <= CellCount
    ensures from <= p ==> CountEmptyFrom(g[p := v], from) == CountEmptyFrom(g, from) - 1
    ensures p < from ==> CountEmptyFrom(g[p := v], from) == CountEmptyFrom(g, from)
    decreases CellCount - from
  {
    if from < CellCount {
      FillLowersCount(g, p, v, from + 1);
    }
  }

  // ----- What a solution of a partial grid is -----

  /** h keeps every text of g and puts a digit into every empty cell of g. */
  ghost predicate DigitCompletion(h: seq<string>, g: seq<string>)
    requires IsGrid(h) && IsGrid(g)
  {
    forall p | 0 <= p < CellCount :: if g[p] == "" then IsDigit(h[p]) else h[p] == g[p]
  }

  /** Some digit completion of g obeys the rules. */
  ghost predicate Solvable(g: seq<string>)
    requires IsGrid(g)
  {
    exists h :: IsGrid(h) && DigitCompletion(h, g) && NoClash(h)
  }

  /** Emptying cells of a grid that obeys the rules cannot create a clash. */
  lemma NoClashOfPart(h: seq<string>, g: seq<string>)
    requires IsGrid(h) && IsGrid(g) && NoClash(h)
    requires forall p | 0 <= p < CellCount :: g[p] == "" || g[p] == h[p]
    ensures NoClash(g)
  {
    forall p, q | 0 <= p < CellCount && 0 <= q < CellCount && p != q && Peers(p, q) && g[p] != ""
      ensures g[p] != g[q]
    {
      assert g[p] == h[p] && h[p] != h[q];
    }
  }

  /** Only a grid that obeys the rules can be completed to a solution. */
  lemma SolvableHasNoClash(g: seq<string>)
    requires IsGrid(g)
    ensures Solvable(g) ==> NoClash(g)
  {
    if Solvable(g) {
      var h :| IsGrid(h) && DigitCompletion(h, g) && NoClash(h);
      NoClashOfPart(h, g);
    }
  }

  /** A solution of g passes through one of the digits at its empty cell p. */
  lemma SolvableSomeDigit(g: seq<string>, p: int) returns (d: string)
    requires IsGrid(g) && 0 <= p < CellCount && g[p] == "" && Solvable(g)
    ensures IsDigit(d) && Solvable(g[p := d])
  {
    var h :| IsGrid(h) && DigitCompletion(h, g) && NoClash(h);
    d := h[p];
    assert DigitCompletion(h, g[p := d]);
  }

  /** A solution of a grid with one more cell filled is a solution of the grid. */
  lemma CompletionOfFilled(h: seq<string>, g: seq<string>, p: int, d: string)
    requires IsGrid(h) && IsGrid(g) && 0 <= p < CellCount && g[p] == ""
    requires IsDigit(d) && DigitCompletion(h, g[p := d])
    ensures DigitCompletion(h, g)
  {
    forall q | 0 <= q < CellCount
      ensures if g[q] == "" then IsDigit(h[q]) else h[q] == g[q]
    {
      assert g[p := d][q] == if q == p then d else g[q];
    }
  }

  // ----- backTrackMe -----

  /** `candidates.splice(idx, 1)`: the dropped candidate moves to the tried ones. */
  lemma DropCandidate(cs: seq<string>, idx: int, tried: set<string>)
    requires 0 <= idx < |cs|
    requires forall d | IsDigit(d) :: d in cs || d in tried
    requires forall d | d in cs :: IsDigit(d)
    ensures forall d | IsDigit(d) :: d in cs[..idx] + cs[idx + 1..] || d in tried + {cs[idx]}
    ensures forall d | d in cs[..idx] + cs[idx + 1..] :: IsDigit(d)
  {
    var rest := cs[..idx] + cs[idx + 1..];
    forall d | IsDigit(d)
      ensures d in rest || d in tried + {cs[idx]}
    {
      if d in cs && d != cs[idx] {
        var k :| 0 <= k < |cs| && cs[k] == d;
        if k < idx {
          assert rest[k] == d;
        } else {
          assert rest[k - 1] == d;
        }
      }
    }
    forall d | d in rest
      ensures IsDigit(d)
    {
      var k :| 0 <= k < |rest| && rest[k] == d;
      if k < idx {
        assert cs[k] == d;
      } else {
        assert cs[k + 1] == d;
      }
    }
  }

  /**
   * `backTrackMe`: solve the grid if it is already solved, otherwise try
   * the candidates "1" .. "9" in a freely chosen order at the first empty
   * cell, keep the first that passes `checkGame` and whose recursive
   * search succeeds, and reset the cell to "" when none does.
   * The source demands a grid that is solved or has an empty cell: on a
   * full grid that breaks the rules it would index position (-1, -1).
   */
  method BackTrack(g: seq<string>) returns (ok: bool, r: seq<string>)
    requires IsGrid(g)
    requires !Complete(g) || CheckSolution(g)
    ensures IsGrid(r)
    ensures ok ==> Complete(r) && NoClash(r) && DigitCompletion(r, g)
    ensures !ok ==> r == g
    ensures ok <==> Solvable(g)
    decreases CountEmpty(g), 2
  {
    if CheckSolution(g) {
      assert DigitCompletion(g, g);
      return true, g;
    }
    var loc := FindEmptySpace(g);
    var p := Index(loc);
    var candidates := Candidates;
    ghost var tried: set<string> := {};
    forall d | IsDigit(d)
      ensures d in candidates || d in tried
    {
      DigitsListed(d);
    }
    while |candidates| > 0
      invariant forall d | IsDigit(d) :: d in candidates || d in tried
      invariant forall d | d in candidates :: IsDigit(d)
      invariant forall d | d in tried :: !Solvable(g[p := d])
      decreases |candidates|
    {
      var idx :| 0 <= idx < |candidates|;
      var d := candidates[idx];
      var ok1, r1 := TryCandidate(g, p, d);
      if ok1 {
        return true, r1;
      }
      DropCandidate(candidates, idx, tried);
      tried := tried + {d};
      candidates := candidates[..idx] + candidates[idx + 1..];
    }
    NoCandidateLeft(g, p, tried);
    return false, g;
  }

  /**
   * One round of the candidate loop: place d at the empty cell p, and
   * recurse when `checkGame` accepts the grid.
   */
  method TryCandidate(g: seq<string>, p: int, d: string) returns (ok: bool, r: seq<string>)
    requires IsGrid(g) && 0 <= p < CellCount && g[p] == "" && IsDigit(d)
    ensures IsGrid(r)
    ensures !ok ==> !Solvable(g[p := d])
    ensures ok ==> DigitCompletion(r, g)
    ensures ok ==> Complete(r) && NoClash(r)
    decreases CountEmpty(g), 1
  {
    if !Admits(g[p := d]) {
      return false, g;
    }
    ok, r := Descend(g, p, d);
  }

  /** The recursive search after `checkGame` accepted d at the empty cell p. */
  method Descend(g: seq<string>, p: int, d: string) returns (ok: bool, r: seq<string>)
    requires IsGrid(g) && 0 <= p < CellCount && g[p] == "" && IsDigit(d)
    requires !Complete(g[p := d]) || CheckSolution(g[p := d])
    ensures IsGrid(r)
    ensures !ok ==> !Solvable(g[p := d])
    ensures ok ==> DigitCompletion(r, g)
    ensures ok ==> Complete(r) && NoClash(r)
    decreases CountEmpty(g), 0
  {
    var g1 := g[p := d];
    FillLowersCount(g, p, d, 0);
    ok, r := BackTrack(g1);
    if ok {
      CompletionOfFilled(r, g, p, d);
    }
  }

  /** `checkGame` as the backtracker uses it: it rejects only grids without a solution. */
  function Admits(g: seq<string>): (ok: bool)
    requires IsGrid(g)
    ensures ok ==> !Complete(g) || CheckSolution(g)
    ensures !ok ==> !Solvable(g)
  {
    SolvableHasNoClash(g);
    CheckGame(g)
  }

  /** When every digit fails at the empty cell p, the grid has no solution. */
  lemma NoCandidateLeft(g: seq<string>, p: int, tried: set<string>)
    requires IsGrid(g) && 0 <= p < CellCount && g[p] == ""
    requires forall d | IsDigit(d) :: d in tried
    requires forall d | d in tried :: !Solvable(g[p := d])
    ensures !Solvable(g)
  {
    if Solvable(g) {
      var d := SolvableSomeDigit(g, p);
      assert false;
    }
  }
}
