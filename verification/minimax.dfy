/** The move-selection engine: minimax search with alpha-beta pruning over the
    board, marking cells in place and undoing each mark after exploring it. */
module Minimax {
  import opened Board

  /** The smallest and largest 32-bit ints: the initial best scores of the
      maximiser and the minimiser, and the bounds of the root search window. */
  const IntMin: int := -0x8000_0000
  const IntMax: int := 0x7fff_ffff

  /** A score with the cell (row, col) that achieves it; (-1, -1) means no move. */
  datatype BestMove = BestMove(value: int, row: int, col: int)

  /** The mark the side to move places. */
  function Mark(isMax: bool): int { if isMax then MAX else MIN }

  /** Score x is strictly better than score y for the side to move. */
  predicate Better(isMax: bool, x: int, y: int) { if isMax then x > y else x < y }

  /** The starting best score, worse than any real score for the side to move. */
  function Worst(isMax: bool): int { if isMax then IntMin else IntMax }

  function Max(x: int, y: int): int { if x < y then y else x }
  function Min(x: int, y: int): int { if y < x then y else x }

  /** The move naming cell k of the row-major order. */
  function MoveAt(value: int, k: nat): BestMove { BestMove(value, k / 3, k % 3) }

  // ---------------------------------------------------------------------------
  // Reference: exhaustive minimax with the same scoring and tie-break
  // ---------------------------------------------------------------------------

  /** The plain minimax result: a win for MAX scores 10 - depth, a win for MIN
      depth - 10, a full board 0; otherwise every free cell is tried in row-major
      order and a later cell replaces the best only if strictly better. */
  function Exhaustive(b: Grid, isMax: bool, depth: int): BestMove
    decreases EmptyCount(b), 1
  {
    var winner := Winner(b);
    if winner == MAX then BestMove(10 - depth, -1, -1)
    else if winner == MIN then BestMove(depth - 10, -1, -1)
    else if !HasEmpty(b) then BestMove(0, -1, -1)
    else ExhaustiveFrom(b, isMax, depth, 0, BestMove(Worst(isMax), -1, -1))
  }

  function ExhaustiveFrom(b: Grid, isMax: bool, depth: int, k: nat, best: BestMove): BestMove
    requires k <= 9
    decreases EmptyCount(b), 0, 9 - k
  {
    if k == 9 then best
    else if b[k] != EMPTY then ExhaustiveFrom(b, isMax, depth, k + 1, best)
    else
      var v := ChildValue(b, isMax, depth, k);
      ExhaustiveFrom(b, isMax, depth, k + 1, if Better(isMax, v, best.value) then MoveAt(v, k) else best)
  }

  /** The exhaustive value of the board after the side to move marks free cell k. */
  function ChildValue(b: Grid, isMax: bool, depth: int, k: nat): int
    requires k < 9 && b[k] == EMPTY
    decreases EmptyCount(b), 0, 0
  {
    PlaceLowersEmptyCount(b, k, Mark(isMax));
    Exhaustive(b[k := Mark(isMax)], !isMax, depth + 1).value
  }

  // ---------------------------------------------------------------------------
  // What the in-place search computes
  // ---------------------------------------------------------------------------

  /** minimax with alpha-beta pruning, as a function of the board it is given:
      after each child, alpha (maximiser) or beta (minimiser) is tightened to the
      best score so far, and the remaining cells are skipped once beta <= alpha. */
  function Pruned(b: Grid, isMax: bool, depth: int, alpha: int, beta: int): BestMove
    decreases EmptyCount(b), 1
  {
    var winner := Winner(b);
    if winner == MAX then BestMove(10 - depth, -1, -1)
    else if winner == MIN then BestMove(depth - 10, -1, -1)
    else if !HasEmpty(b) then BestMove(0, -1, -1)
    else PrunedFrom(b, isMax, depth, alpha, beta, 0, BestMove(Worst(isMax), -1, -1))
  }

  function PrunedFrom(b: Grid, isMax: bool, depth: int, alpha: int, beta: int, k: nat, best: BestMove): BestMove
    requires k <= 9
    decreases EmptyCount(b), 0, 9 - k
  {
    if k == 9 then best
    else if b[k] != EMPTY then PrunedFrom(b, isMax, depth, alpha, beta, k + 1, best)
    else
      PlaceLowersEmptyCount(b, k, Mark(isMax));
      var current := Pruned(b[k := Mark(isMax)], !isMax, depth + 1, alpha, beta);
      var best' := if Better(isMax, current.value, best.value) then MoveAt(current.value, k) else best;
      var alpha' := if isMax then Max(alpha, best'.value) else alpha;
      var beta' := if isMax then beta else Min(beta, best'.value);
      if beta' <= alpha' then best'
      else PrunedFrom(b, isMax, depth, alpha', beta', k + 1, best')
  }

  // ---------------------------------------------------------------------------
  // Properties of the exhaustive search
  // ---------------------------------------------------------------------------

  /** The scan from cell k on ends with a result no worse than the best it
      started with and no worse than any free cell it examines; the result is
      either the starting best or the first examined cell whose child value it
      is, every earlier examined cell being strictly worse. */
  lemma {:induction false} ExhaustiveFromBest(b: Grid, isMax: bool, depth: int, k: nat, best: BestMove)
    requires k <= 9
    ensures var r := ExhaustiveFrom(b, isMax, depth, k, best);
      && !Better(isMax, best.value, r.value)
      && (forall k' :: k <= k' < 9 && b[k'] == EMPTY ==> !Better(isMax, ChildValue(b, isMax, depth, k'), r.value))
      && (r == best ||
          exists k' :: k <= k' < 9 && b[k'] == EMPTY && r == MoveAt(ChildValue(b, isMax, depth, k'), k') &&
            Better(isMax, r.value, best.value) &&
            forall k'' :: k <= k'' < k' && b[k''] == EMPTY ==> Better(isMax, r.value, ChildValue(b, isMax, depth, k'')))
    decreases 9 - k
  {
    if k < 9 {
      if b[k] != EMPTY {
        ExhaustiveFromBest(b, isMax, depth, k + 1, best);
      } else {
        var v := ChildValue(b, isMax, depth, k);
        var best' := if Better(isMax, v, best.value) then MoveAt(v, k) else best;
        ExhaustiveFromBest(b, isMax, depth, k + 1, best');
        var r := ExhaustiveFrom(b, isMax, depth, k, best);
        assert r == ExhaustiveFrom(b, isMax, depth, k + 1, best');
        if r != best' {
          var k' :| k + 1 <= k' < 9 && b[k'] == EMPTY && r == MoveAt(ChildValue(b, isMax, depth, k'), k') &&
            Better(isMax, r.value, best'.value) &&
            forall k'' :: k + 1 <= k'' < k' && b[k''] == EMPTY ==> Better(isMax, r.value, ChildValue(b, isMax, depth, k''));
          assert Better(isMax, r.value, v);
        }
      }
    }
  }

  /** On a board with no winner and a free cell, the exhaustive search names a
      free cell, scores it with that cell's child value, finds no free cell
      better, and finds every free cell before it in row-major order strictly
      worse: it is the first best move. */
  lemma ExhaustiveIsFirstBest(b: Grid, isMax: bool, depth: int)
    requires Winner(b) != MAX && Winner(b) != MIN && HasEmpty(b)
    requires 0 <= depth && depth + EmptyCount(b) <= 10
    ensures var r := Exhaustive(b, isMax, depth);
      && 0 <= r.row < 3 && 0 <= r.col < 3 && b[3 * r.row + r.col] == EMPTY
      && r.value == ChildValue(b, isMax, depth, 3 * r.row + r.col)
      && (forall k :: 0 <= k < 9 && b[k] == EMPTY ==> !Better(isMax, ChildValue(b, isMax, depth, k), r.value))
      && (forall k :: 0 <= k < 3 * r.row + r.col && b[k] == EMPTY ==> Better(isMax, r.value, ChildValue(b, isMax, depth, k)))
    decreases EmptyCount(b), 0
  {
    var start := BestMove(Worst(isMax), -1, -1);
    ExhaustiveFromBest(b, isMax, depth, 0, start);
    var r := Exhaustive(b, isMax, depth);
    var k0 :| 0 <= k0 < 9 && b[k0] == EMPTY;
    PlaceLowersEmptyCount(b, k0, Mark(isMax));
    ExhaustiveRange(b[k0 := Mark(isMax)], !isMax, depth + 1);
    assert r != start;
    var k' :| 0 <= k' < 9 && b[k'] == EMPTY && r == MoveAt(ChildValue(b, isMax, depth, k'), k') &&
      Better(isMax, r.value, start.value) &&
      forall k'' :: 0 <= k'' < k' && b[k''] == EMPTY ==> Better(isMax, r.value, ChildValue(b, isMax, depth, k''));
    assert 3 * r.row + r.col == k';
  }

  /** Scores stay within [depth - 10, 10 - depth] as long as the game cannot
      run past depth 10. */
  lemma ExhaustiveRange(b: Grid, isMax: bool, depth: int)
    requires 0 <= depth && depth + EmptyCount(b) <= 10
    ensures depth - 10 <= Exhaustive(b, isMax, depth).value <= 10 - depth
    decreases EmptyCount(b), 1
  {
    var w := Winner(b);
    if w != MAX && w != MIN && HasEmpty(b) {
      ExhaustiveIsFirstBest(b, isMax, depth);
      var r := Exhaustive(b, isMax, depth);
      var k := 3 * r.row + r.col;
      PlaceLowersEmptyCount(b, k, Mark(isMax));
      ExhaustiveRange(b[k := Mark(isMax)], !isMax, depth + 1);
    }
  }

  // ---------------------------------------------------------------------------
  // Alpha-beta pruning against the exhaustive search
  // ---------------------------------------------------------------------------

  /** The fail-soft alpha-beta guarantee of a score r for a position whose true
      value is v, searched with window (alpha, beta). */
  predicate FailSoft(r: int, v: int, alpha: int, beta: int) {
    && (alpha < r < beta ==> r == v)
    && (r <= alpha ==> v <= r)
    && (beta <= r ==> v >= r)
  }

  /** For any window of 32-bit ints with alpha < beta, the pruned score is the
      exhaustive value when it lies strictly inside the window, an upper bound
      of it when at or below alpha, and a lower bound when at or above beta. */
  lemma PrunedFailSoft(b: Grid, isMax: bool, depth: int, alpha: int, beta: int)
    requires IntMin <= alpha < beta <= IntMax
    ensures FailSoft(Pruned(b, isMax, depth, alpha, beta).value, Exhaustive(b, isMax, depth).value, alpha, beta)
    decreases EmptyCount(b), 1
  {
    var w := Winner(b);
    if w != MAX && w != MIN && HasEmpty(b) {
      var start := BestMove(Worst(isMax), -1, -1);
      PrunedFromFailSoft(b, isMax, depth, alpha, beta, alpha, beta, 0, start, start);
    }
  }

  /** The invariant of the pruned scan of one position against the exhaustive
      scan of the same position: best is the pruned running best, m the
      exhaustive one, (a, bt) the current window narrowed from (alpha, beta). */
  lemma {:induction false} PrunedFromFailSoft(b: Grid, isMax: bool, depth: int, alpha: int, beta: int,
                                             a: int, bt: int, k: nat, best: BestMove, m: BestMove)
    requires IntMin <= alpha < beta <= IntMax
    requires k <= 9 && a < bt
    requires isMax ==>
      && bt == beta && a == Max(alpha, best.value)
      && (alpha < best.value ==> best.value == m.value) && (best.value <= alpha ==> m.value <= best.value)
    requires !isMax ==>
      && a == alpha && bt == Min(beta, best.value)
      && (best.value < beta ==> best.value == m.value) && (beta <= best.value ==> best.value <= m.value)
    ensures FailSoft(PrunedFrom(b, isMax, depth, a, bt, k, best).value, ExhaustiveFrom(b, isMax, depth, k, m).value, alpha, beta)
    decreases EmptyCount(b), 0, 9 - k
  {
    if k == 9 {
    } else if b[k] != EMPTY {
      PrunedFromFailSoft(b, isMax, depth, alpha, beta, a, bt, k + 1, best, m);
    } else {
      PlaceLowersEmptyCount(b, k, Mark(isMax));
      var c := b[k := Mark(isMax)];
      PrunedFailSoft(c, !isMax, depth + 1, a, bt);
      var current := Pruned(c, !isMax, depth + 1, a, bt);
      var best' := if Better(isMax, current.value, best.value) then MoveAt(current.value, k) else best;
      var a' := if isMax then Max(a, best'.value) else a;
      var bt' := if isMax then bt else Min(bt, best'.value);
      var v := ChildValue(b, isMax, depth, k);
      var m' := if Better(isMax, v, m.value) then MoveAt(v, k) else m;
      assert PrunedFrom(b, isMax, depth, a, bt, k, best) ==
        if bt' <= a' then best' else PrunedFrom(b, isMax, depth, a', bt', k + 1, best');
      assert ExhaustiveFrom(b, isMax, depth, k, m) == ExhaustiveFrom(b, isMax, depth, k + 1, m');
      if bt' <= a' {
        ExhaustiveFromBest(b, isMax, depth, k + 1, m');
      } else {
        PrunedFromFailSoft(b, isMax, depth, alpha, beta, a', bt', k + 1, best', m');
      }
    }
  }

  /** Searched from the root with the full window (IntMin, IntMax), pruning
      changes nothing: the score and the move are those of the exhaustive search. */
  lemma PrunedRootIsExhaustive(b: Grid, isMax: bool, depth: int)
    requires 0 <= depth && depth + EmptyCount(b) <= 10
    ensures Pruned(b, isMax, depth, IntMin, IntMax) == Exhaustive(b, isMax, depth)
  {
    var w := Winner(b);
    if w != MAX && w != MIN && HasEmpty(b) {
      var start := BestMove(Worst(isMax), -1, -1);
      PrunedFromRoot(b, isMax, depth, 0, start);
    }
  }

  lemma {:induction false} PrunedFromRoot(b: Grid, isMax: bool, depth: int, k: nat, best: BestMove)
    requires 0 <= depth && depth + EmptyCount(b) <= 10
    requires k <= 9
    requires best.value == Worst(isMax) || -10 <= best.value <= 10
    ensures PrunedFrom(b, isMax, depth, if isMax then best.value else IntMin, if isMax then IntMax else best.value, k, best)
         == ExhaustiveFrom(b, isMax, depth, k, best)
    decreases 9 - k
  {
    var a := if isMax then best.value else IntMin;
    var bt := if isMax then IntMax else best.value;
    if k == 9 {
    } else if b[k] != EMPTY {
      PrunedFromRoot(b, isMax, depth, k + 1, best);
    } else {
      PlaceLowersEmptyCount(b, k, Mark(isMax));
      var c := b[k := Mark(isMax)];
      PrunedFailSoft(c, !isMax, depth + 1, a, bt);
      ExhaustiveRange(c, !isMax, depth + 1);
      var current := Pruned(c, !isMax, depth + 1, a, bt);
      var v := ChildValue(b, isMax, depth, k);
      assert Better(isMax, current.value, best.value) <==> Better(isMax, v, best.value);
      assert Better(isMax, current.value, best.value) ==> current.value == v;
      var best' := if Better(isMax, v, best.value) then MoveAt(v, k) else best;
      assert PrunedFrom(b, isMax, depth, a, bt, k, best) ==
        PrunedFrom(b, isMax, depth, if isMax then best'.value else IntMin, if isMax then IntMax else best'.value, k + 1, best');
      PrunedFromRoot(b, isMax, depth, k + 1, best');
    }
  }

  /** Whatever the window, on a board with no winner and a free cell the pruned
      search returns a score within [depth - 10, 10 - depth] and a move naming a
      free cell. */
  lemma PrunedMoveIsFree(b: Grid, isMax: bool, depth: int, alpha: int, beta: int)
    requires 0 <= depth && depth + EmptyCount(b) <= 10
    ensures var r := Pruned(b, isMax, depth, alpha, beta);
      && depth - 10 <= r.value <= 10 - depth
      && (Winner(b) != MAX && Winner(b) != MIN && HasEmpty(b) ==>
            0 <= r.row < 3 && 0 <= r.col < 3 && b[3 * r.row + r.col] == EMPTY)
    decreases EmptyCount(b), 1
  {
    var w := Winner(b);
    if w != MAX && w != MIN && HasEmpty(b) {
      PrunedFromMoveIsFree(b, isMax, depth, alpha, beta, 0, BestMove(Worst(isMax), -1, -1));
    }
  }

  lemma {:induction false} PrunedFromMoveIsFree(b: Grid, isMax: bool, depth: int, alpha: int, beta: int, k: nat, best: BestMove)
    requires 0 <= depth && depth + EmptyCount(b) <= 10
    requires k <= 9
    requires best == BestMove(Worst(isMax), -1, -1) ==> exists k' :: k <= k' < 9 && b[k'] == EMPTY
    requires best == BestMove(Worst(isMax), -1, -1) ||
      (depth - 9 <= best.value <= 9 - depth && 0 <= best.row < 3 && 0 <= best.col < 3 && b[3 * best.row + best.col] == EMPTY)
    ensures var r := PrunedFrom(b, isMax, depth, alpha, beta, k, best);
      depth - 10 <= r.value <= 10 - depth && 0 <= r.row < 3 && 0 <= r.col < 3 && b[3 * r.row + r.col] == EMPTY
    decreases EmptyCount(b), 0, 9 - k
  {
    if k < 9 {
      if b[k] != EMPTY {
        PrunedFromMoveIsFree(b, isMax, depth, alpha, beta, k + 1, best);
      } else {
        PlaceLowersEmptyCount(b, k, Mark(isMax));
        var c := b[k := Mark(isMax)];
        PrunedMoveIsFree(c, !isMax, depth + 1, alpha, beta);
        var current := Pruned(c, !isMax, depth + 1, alpha, beta);
        var best' := if Better(isMax, current.value, best.value) then MoveAt(current.value, k) else best;
        var alpha' := if isMax then Max(alpha, best'.value) else alpha;
        var beta' := if isMax then beta else Min(beta, best'.value);
        assert best' != BestMove(Worst(isMax), -1, -1);
        if !(beta' <= alpha') {
          PrunedFromMoveIsFree(b, isMax, depth, alpha', beta', k + 1, best');
        }
      }
    }
  }

  /** X to move on X X _ / O O _ / _ _ _ takes the top-right cell and wins at
      once: the search, pruned or not, answers row 0, column 2, value 10 - 1. */
  lemma ImmediateWinChosen()
    ensures var b := [MAX, MAX, EMPTY, MIN, MIN, EMPTY, EMPTY, EMPTY, EMPTY];
      && Exhaustive(b, true, 0) == BestMove(9, 0, 2)
      && Pruned(b, true, 0, IntMin, IntMax) == BestMove(9, 0, 2)
  {
    var b: Grid := [MAX, MAX, EMPTY, MIN, MIN, EMPTY, EMPTY, EMPTY, EMPTY];
    assert Winner(b) == EMPTY && b[2] == EMPTY;
    PlaceLowersEmptyCount(b, 2, MAX);
    var c := b[2 := MAX];
    assert Winner(c) == MAX;
    assert ChildValue(b, true, 0, 2) == 9;
    EmptyCountBound(b);
    ExhaustiveIsFirstBest(b, true, 0);
    var r := Exhaustive(b, true, 0);
    var k := 3 * r.row + r.col;
    PlaceLowersEmptyCount(b, k, MAX);
    ExhaustiveRange(b[k := MAX], false, 1);
    assert k == 2;
    PrunedRootIsExhaustive(b, true, 0);
  }

  // ---------------------------------------------------------------------------
  // The search over the game's array
  // ---------------------------------------------------------------------------

  /** A board of n cells has at most n free cells. */
  lemma EmptyCountBound(s: seq<int>)
    ensures EmptyCount(s) <= |s|
  {
  }

  /** A 3x3 array whose cell (r, c) holds b[3 * r + c] for every r, c has
      snapshot b. */
  lemma SnapshotFromCells(g: array2<int>, b: Grid)
    requires g.Length0 == 3 && g.Length1 == 3
    requires forall r, c :: 0 <= r < 3 && 0 <= c < 3 ==> g[r, c] == b[3 * r + c]
    ensures Snapshot(g) == b
  {
  }

  /** Writes mark into cell (row, col), as the search does when it marks a cell
      and when it undoes that mark. */
  method SetCell(grid: array2<int>, row: int, col: int, mark: int)
    requires grid.Length0 == 3 && grid.Length1 == 3
    requires 0 <= row < 3 && 0 <= col < 3
    modifies grid
    ensures Snapshot(grid) == old(Snapshot(grid))[3 * row + col := mark]
  {
    grid[row, col] := mark;
    ghost var b := old(Snapshot(grid))[3 * row + col := mark];
    forall r, c | 0 <= r < 3 && 0 <= c < 3 ensures grid[r, c] == b[3 * r + c] {
      if r != row || c != col { assert 3 * r + c != 3 * row + col; }
    }
    SnapshotFromCells(grid, b);
  }

  /** Cell (i, j) is cell 3 * i + j of the row-major order. */
  lemma CellIndex(i: int, j: int)
    requires 0 <= i < 3 && 0 <= j < 3
    ensures (3 * i + j) / 3 == i && (3 * i + j) % 3 == j
  {
  }

  /** minimax: searches the position in grid for the side to move, marking each
      free cell in turn and undoing the mark after the recursive call; the grid
      is left as it was on every return. */
  method Minimax(grid: array2<int>, isMax: bool, depth: int, alpha: int, beta: int) returns (result: BestMove)
    requires grid.Length0 == 3 && grid.Length1 == 3
    modifies grid
    ensures Snapshot(grid) == old(Snapshot(grid))
    ensures result == Pruned(old(Snapshot(grid)), isMax, depth, alpha, beta)
    decreases EmptyCount(Snapshot(grid))
  {
    ghost var b := Snapshot(grid);
    var winner := GetWinningPlayer(grid);
    if winner == MAX {
      return BestMove(10 - depth, -1, -1);
    } else if winner == MIN {
      return BestMove(depth - 10, -1, -1);
    }
    var hasMove := HasValidMove(grid);
    if !hasMove {
      return BestMove(0, -1, -1);
    }

    result := BestMove(if isMax then IntMin else IntMax, -1, -1);
    var a, bt := alpha, beta;
    for i := 0 to 3
      invariant Snapshot(grid) == b
      invariant PrunedFrom(b, isMax, depth, a, bt, 3 * i, result) == Pruned(b, isMax, depth, alpha, beta)
    {
      for j := 0 to 3
        invariant Snapshot(grid) == b
        invariant PrunedFrom(b, isMax, depth, a, bt, 3 * i + j, result) == Pruned(b, isMax, depth, alpha, beta)
      {
        if grid[i, j] == EMPTY {
          ghost var k := 3 * i + j;
          ghost var before, a0, bt0 := result, a, bt;
          CellIndex(i, j);
          SetCell(grid, i, j, if isMax then MAX else MIN);
          PlaceLowersEmptyCount(b, k, Mark(isMax));
          var currentMove := Minimax(grid, !isMax, depth + 1, a, bt);
          SetCell(grid, i, j, EMPTY);
          assert Snapshot(grid) == b by {
            assert b[k := Mark(isMax)][k := EMPTY] == b;
          }

          if (isMax && currentMove.value > result.value) || (!isMax && currentMove.value < result.value) {
            result := BestMove(currentMove.value, i, j);
          }
          assert result == if Better(isMax, currentMove.value, before.value) then MoveAt(currentMove.value, k) else before;
          if isMax {
            a := Max(a, result.value);
          } else {
            bt := Min(bt, result.value);
          }
          assert PrunedFrom(b, isMax, depth, a0, bt0, k, before) ==
            if bt <= a then result else PrunedFrom(b, isMax, depth, a, bt, k + 1, result);
          if bt <= a {
            return;
          }
        }
      }
    }
  }

  /** The engine's reply once the opponent has moved and the game is not over
      (nobody has won and some cell is free): minimax for the minimiser at depth
      0 with the full window. The grid comes back unchanged, and the reply is
      the exhaustive first-best move: a free cell scored within [-10, 10]. */
  method EngineMove(grid: array2<int>) returns (move: BestMove)
    requires grid.Length0 == 3 && grid.Length1 == 3
    requires Winner(Snapshot(grid)) == EMPTY && HasEmpty(Snapshot(grid))
    modifies grid
    ensures Snapshot(grid) == old(Snapshot(grid))
    ensures move == Exhaustive(old(Snapshot(grid)), false, 0)
    ensures -10 <= move.value <= 10
    ensures 0 <= move.row < 3 && 0 <= move.col < 3 && old(grid[move.row, move.col]) == EMPTY
  {
    ghost var b := Snapshot(grid);
    EmptyCountBound(b);
    PrunedRootIsExhaustive(b, false, 0);
    PrunedMoveIsFree(b, false, 0, IntMin, IntMax);
    move := Minimax(grid, false, 0, IntMin, IntMax);
  }
}
