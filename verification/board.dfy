/** The 3x3 tic-tac-toe board and its terminal-state queries: who has won, and
    whether any cell is still free. */
module Board {

  /** Cell values as the game stores them. */
  const EMPTY: int := -1
  /** The maximiser's mark (X), who moves first. */
  const MAX: int := 0
  /** The minimiser's mark (O), played by the engine. */
  const MIN: int := 1

  /** The nine cells of a board in row-major order: cell (row, col) sits at
      index 3 * row + col. */
  type Grid = s: seq<int> | |s| == 9 witness [-1, -1, -1, -1, -1, -1, -1, -1, -1]

  /** The contents of a 3x3 array, row by row. */
  function Snapshot(g: array2<int>): (s: Grid)
    requires g.Length0 == 3 && g.Length1 == 3
    reads g
    ensures forall i, j :: 0 <= i < 3 && 0 <= j < 3 ==> s[3 * i + j] == g[i, j]
  {
    [g[0, 0], g[0, 1], g[0, 2], g[1, 0], g[1, 1], g[1, 2], g[2, 0], g[2, 1], g[2, 2]]
  }

  // ---------------------------------------------------------------------------
  // Win detection, in the order and with the tests the game uses
  // ---------------------------------------------------------------------------

  /** The game's test of three cells x, y, z along a line: each cell after the
      first is non-empty and equal to the one before it. */
  predicate Match(x: int, y: int, z: int) {
    y != EMPTY && x == y && z != EMPTY && y == z
  }

  /** How much of Match(x, y, z) the game has established after examining
      the first n cells of the line. */
  predicate MatchUpTo(x: int, y: int, z: int, n: nat) {
    (n >= 2 ==> y != EMPTY && x == y) && (n >= 3 ==> z != EMPTY && y == z)
  }

  predicate MainDiagonal(b: Grid) { Match(b[0], b[4], b[8]) }

  /** The secondary diagonal, walked from the top-right cell down to the
      bottom-left one. */
  predicate SecondaryDiagonal(b: Grid) { Match(b[2], b[4], b[6]) }

  predicate RowMatch(b: Grid, i: nat)
    requires i < 3
  {
    Match(b[3 * i], b[3 * i + 1], b[3 * i + 2])
  }

  predicate ColMatch(b: Grid, i: nat)
    requires i < 3
  {
    Match(b[i], b[3 + i], b[6 + i])
  }

  /** The mark the game reports as winner, or EMPTY: the diagonals come first
      and report the centre cell; then row i and column i are tested together
      for i = 0, 1, 2 and report the cell (i, i). */
  function Winner(b: Grid): int {
    if MainDiagonal(b) || SecondaryDiagonal(b) then b[4] else RowColWinner(b, 0)
  }

  function RowColWinner(b: Grid, i: nat): int
    requires i <= 3
    decreases 3 - i
  {
    if i == 3 then EMPTY
    else if RowMatch(b, i) || ColMatch(b, i) then b[4 * i]
    else RowColWinner(b, i + 1)
  }

  // ---------------------------------------------------------------------------
  // Reference definition: the eight lines of three
  // ---------------------------------------------------------------------------

  /** Every line of three cells, in the order the game examines them: main
      diagonal, secondary diagonal, then row i before column i for each i. */
  const Lines: seq<(nat, nat, nat)> :=
    [(0, 4, 8), (2, 4, 6), (0, 1, 2), (0, 3, 6), (3, 4, 5), (1, 4, 7), (6, 7, 8), (2, 5, 8)]

  /** All three cells of line l hold the same non-empty mark. */
  predicate Complete(b: Grid, l: (nat, nat, nat)) {
    l.0 < 9 && l.1 < 9 && l.2 < 9 &&
    b[l.0] != EMPTY && b[l.1] == b[l.0] && b[l.2] == b[l.0]
  }

  /** The mark on the first complete line among Lines[n..], read from that
      line's own cells, or EMPTY when none of them is complete. */
  function FirstComplete(b: Grid, n: nat): int
    requires n <= |Lines|
    decreases |Lines| - n
  {
    if n == |Lines| then EMPTY
    else if Complete(b, Lines[n]) then b[Lines[n].0]
    else FirstComplete(b, n + 1)
  }

  /** Reporting the centre cell for a diagonal and the cell (i, i) for row or
      column i always yields the mark of the line that actually won: the
      game's winner is the mark of the first complete line in its check order. */
  lemma WinnerIsFirstCompleteLine(b: Grid)
    ensures Winner(b) == FirstComplete(b, 0)
  {
    assert Lines[0] == (0, 4, 8) && Lines[1] == (2, 4, 6);
    if MainDiagonal(b) || SecondaryDiagonal(b) {
      assert Complete(b, Lines[0]) || Complete(b, Lines[1]);
    } else {
      assert !Complete(b, Lines[0]) && !Complete(b, Lines[1]);
      RowColIsFirstComplete(b, 0);
    }
  }

  lemma {:induction false} RowColIsFirstComplete(b: Grid, i: nat)
    requires i <= 3
    ensures RowColWinner(b, i) == FirstComplete(b, 2 + 2 * i)
    decreases 3 - i
  {
    if i < 3 {
      var r, c := Lines[2 + 2 * i], Lines[3 + 2 * i];
      assert r == (3 * i, 3 * i + 1, 3 * i + 2) && c == (i, 3 + i, 6 + i);
      assert RowMatch(b, i) <==> Complete(b, r);
      assert ColMatch(b, i) <==> Complete(b, c);
      if !RowMatch(b, i) && !ColMatch(b, i) {
        RowColIsFirstComplete(b, i + 1);
      }
    }
  }

  lemma {:induction false} FirstCompleteSpec(b: Grid, n: nat)
    requires n <= |Lines|
    ensures FirstComplete(b, n) == EMPTY <==> forall m :: n <= m < |Lines| ==> !Complete(b, Lines[m])
    ensures FirstComplete(b, n) != EMPTY ==>
      exists m :: n <= m < |Lines| && Complete(b, Lines[m]) && b[Lines[m].0] == FirstComplete(b, n) &&
        forall m' :: n <= m' < m ==> !Complete(b, Lines[m'])
    decreases |Lines| - n
  {
    if n < |Lines| && !Complete(b, Lines[n]) {
      FirstCompleteSpec(b, n + 1);
    }
  }

  /** A reported winner is the mark filling some line, and every line the game
      examines before that one is incomplete. */
  lemma WinnerOwnsCompleteLine(b: Grid)
    ensures Winner(b) != EMPTY ==>
      exists m :: 0 <= m < |Lines| && Complete(b, Lines[m]) && b[Lines[m].0] == Winner(b) &&
        forall m' :: 0 <= m' < m ==> !Complete(b, Lines[m'])
  {
    WinnerIsFirstCompleteLine(b);
    FirstCompleteSpec(b, 0);
  }

  /** The game reports no winner exactly when no line holds three equal marks. */
  lemma NoWinnerIffNoCompleteLine(b: Grid)
    ensures Winner(b) == EMPTY <==> forall m :: 0 <= m < |Lines| ==> !Complete(b, Lines[m])
  {
    WinnerIsFirstCompleteLine(b);
    FirstCompleteSpec(b, 0);
  }

  /** A filled diagonal is reported through the centre cell, for either
      diagonal and whichever mark fills it. */
  lemma DiagonalWinReported(a: int)
    requires a != EMPTY
    ensures Winner([a, EMPTY, EMPTY, EMPTY, a, EMPTY, EMPTY, EMPTY, a]) == a
    ensures Winner([EMPTY, EMPTY, a, EMPTY, a, EMPTY, a, EMPTY, EMPTY]) == a
  {
  }

  // ---------------------------------------------------------------------------
  // Free cells
  // ---------------------------------------------------------------------------

  predicate HasEmpty(b: Grid) { EMPTY in b }

  /** The number of free cells in s. */
  function EmptyCount(s: seq<int>): nat {
    if s == [] then 0 else (if s[0] == EMPTY then 1 else 0) + EmptyCount(s[1..])
  }

  /** A board has a free cell exactly when its count of free cells is positive. */
  lemma {:induction false} HasEmptyIffCount(s: seq<int>)
    ensures EMPTY in s <==> EmptyCount(s) > 0
  {
    if s != [] {
      assert s == [s[0]] + s[1..];
      HasEmptyIffCount(s[1..]);
    }
  }

  /** Marking a free cell leaves one free cell fewer. */
  lemma {:induction false} PlaceLowersEmptyCount(s: seq<int>, k: nat, mark: int)
    requires k < |s| && s[k] == EMPTY && mark != EMPTY
    ensures EmptyCount(s[k := mark]) == EmptyCount(s) - 1
  {
    assert s[k := mark][1..] == if k == 0 then s[1..] else s[1..][k - 1 := mark];
    if k > 0 {
      PlaceLowersEmptyCount(s[1..], k - 1, mark);
    }
  }

  // ---------------------------------------------------------------------------
  // The game's routines over the array
  // ---------------------------------------------------------------------------

  /** getWinningPlayer: the reported winner, or EMPTY. */
  method GetWinningPlayer(grid: array2<int>) returns (winner: int)
    requires grid.Length0 == 3 && grid.Length1 == 3
    ensures winner == Winner(Snapshot(grid))
  {
    ghost var b := Snapshot(grid);
    var mainDiagonalHasWinner := true;
    var secondaryDiagonalHasWinner := true;
    for i := 1 to 3
      invariant mainDiagonalHasWinner == MatchUpTo(grid[0, 0], grid[1, 1], grid[2, 2], i)
      invariant secondaryDiagonalHasWinner == MatchUpTo(grid[0, 2], grid[1, 1], grid[2, 0], i)
    {
      mainDiagonalHasWinner := mainDiagonalHasWinner &&
        grid[i, i] != EMPTY && grid[i, i] == grid[i - 1, i - 1];
      secondaryDiagonalHasWinner := secondaryDiagonalHasWinner &&
        grid[i, 2 - i] != EMPTY && grid[i, 2 - i] == grid[i - 1, 2 - i + 1];
    }
    assert b[0] == grid[0, 0] && b[4] == grid[1, 1] && b[8] == grid[2, 2];
    assert b[2] == grid[0, 2] && b[6] == grid[2, 0];
    if mainDiagonalHasWinner || secondaryDiagonalHasWinner {
      return grid[1, 1];
    }

    assert Winner(b) == RowColWinner(b, 0);
    for i := 0 to 3
      invariant RowColWinner(b, i) == Winner(b)
    {
      var rowHasWinner := true;
      var colHasWinner := true;
      for j := 1 to 3
        invariant rowHasWinner == MatchUpTo(grid[i, 0], grid[i, 1], grid[i, 2], j)
        invariant colHasWinner == MatchUpTo(grid[0, i], grid[1, i], grid[2, i], j)
      {
        rowHasWinner := rowHasWinner && grid[i, j] != EMPTY && grid[i, j - 1] == grid[i, j];
        colHasWinner := colHasWinner && grid[j, i] != EMPTY && grid[j - 1, i] == grid[j, i];
      }
      assert b[3 * i] == grid[i, 0] && b[3 * i + 1] == grid[i, 1] && b[3 * i + 2] == grid[i, 2];
      assert b[i] == grid[0, i] && b[3 + i] == grid[1, i] && b[6 + i] == grid[2, i];
      if rowHasWinner || colHasWinner {
        assert b[4 * i] == grid[i, i];
        return grid[i, i];
      }
      assert RowColWinner(b, i) == RowColWinner(b, i + 1);
    }
    return EMPTY;
  }

  /** hasValidMove: whether some cell is still free. */
  method HasValidMove(grid: array2<int>) returns (found: bool)
    requires grid.Length0 == 3 && grid.Length1 == 3
    ensures found <==> exists i, j :: 0 <= i < 3 && 0 <= j < 3 && grid[i, j] == EMPTY
    ensures found == HasEmpty(Snapshot(grid))
  {
    for i := 0 to 3
      invariant forall r, c :: 0 <= r < i && 0 <= c < 3 ==> grid[r, c] != EMPTY
    {
      for j := 0 to 3
        invariant forall r, c :: (0 <= r < i && 0 <= c < 3) || (r == i && 0 <= c < j) ==> grid[r, c] != EMPTY
      {
        if grid[i, j] == EMPTY {
          assert Snapshot(grid)[3 * i + j] == EMPTY;
          return true;
        }
      }
    }
    ghost var b := Snapshot(grid);
    assert forall k :: 0 <= k < 9 ==> b[k] != EMPTY by {
      forall k | 0 <= k < 9 ensures b[k] != EMPTY {
        assert b[3 * (k / 3) + k % 3] == grid[k / 3, k % 3];
      }
    }
    return false;
  }
}
