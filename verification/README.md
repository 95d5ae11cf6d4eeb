# Tic-tac-toe engine: win detection and alpha-beta minimax

This project models the game logic of a desktop tic-tac-toe program in which
a human plays X (the maximiser, mark `0`) and the computer plays O (the
minimiser, mark `1`). The board is a 3x3 grid of ints, and `-1` marks a free
cell. The model covers:

- `getWinningPlayer`, which reports the winning mark or `-1`;
- `hasValidMove`, which tells whether some cell is still free;
- the `BestMove` record (a score and a cell; `(-1, -1)` means no cell);
- the three mark constants;
- `minimax`, the recursive search with alpha-beta pruning. It marks each free
  cell of the grid in place, recurses, and then undoes the mark.

Two modules:

- `Board` (`board.dfy`):
  - the grid, viewed as the nine cells in row-major order (`Snapshot`);
  - `Winner`, a function with exactly the game's tests and check order, and
    `GetWinningPlayer`, the loop over the array proved equal to it;
  - an independent reference over the eight lines of three, and lemmas tying
    the two together;
  - `HasValidMove`.
- `Minimax` (`minimax.dfy`):
  - `Exhaustive`: plain minimax, with the game's scoring and its strict
    tie-break, used as the reference;
  - `Pruned`: the alpha-beta search as a function of the board it is given;
  - `Minimax`: the in-place search over the array. It is proved to return
    `Pruned` of its input and to leave the grid as it found it;
  - lemmas relating `Pruned` to `Exhaustive`: fail-soft bounds for any window,
    equality at the root window, score range, the move names a free cell, and
    the move is the first best in row-major order;
  - `EngineMove`: the engine's reply once the human has moved and the game is
    not over.

`BestMove` is the datatype `Minimax.BestMove`. `INT_MIN` and `INT_MAX` are the
exact 32-bit constants `IntMin` and `IntMax`.

## Model

| member | source | states |
|---|---|---|
| Board.GetWinningPlayer | main.cpp:35-71 | The loop over the array returns `Winner` of the grid: the centre cell if either diagonal holds three equal non-empty marks, else `grid[i][i]` for the first i whose row or column does, else -1. |
| Board.WinnerIsFirstCompleteLine | main.cpp:37-70 | Reporting the centre cell for a diagonal and `grid[i][i]` for row or column i always gives the mark of a line that really is complete. The reported winner equals the first-cell mark of the first complete line, taking the eight lines in the game's check order. |
| Board.WinnerOwnsCompleteLine | main.cpp:47-67 | A reported winner fills some complete line, and every line checked before that one is incomplete. |
| Board.NoWinnerIffNoCompleteLine | main.cpp:40-70 | The result is -1 if and only if no line holds three equal non-empty marks. |
| Board.DiagonalWinReported | main.cpp:37-50 | A board whose only marks fill the main diagonal, or only the secondary one, reports that mark as the winner. |
| Board.HasValidMove | main.cpp:73-87 | The result is true if and only if some cell of the array is -1. |
| Board.PlaceLowersEmptyCount | main.cpp:124-126 | Marking a free cell leaves one free cell fewer. This bounds the recursion. |
| Board.HasEmptyIffCount | main.cpp:112-115 | A board has a free cell if and only if its count of free cells is positive, so the draw test `!hasValidMove` fires exactly when that count is zero. |
| Minimax.SetCell | main.cpp:124-131 | Writing a mark into cell (row, col) changes that cell of the snapshot and no other. The search uses it to place a mark and to undo it. |
| Minimax.Minimax | main.cpp:100-159 | The grid is the same on every return, including the early return on pruning. The result equals `Pruned` of the input board: the same terminal scores, the same row-major scan, the same strict comparisons, the same alpha/beta updates and the same cut-off when beta <= alpha. |
| Minimax.ExhaustiveRange | main.cpp:102-115 | Scores lie in [depth - 10, 10 - depth]: a win for X scores 10 - depth, a win for O scores depth - 10, a full board scores 0. This holds while depth is at least 0 and depth plus the free cells is at most 10. |
| Minimax.ExhaustiveFromBest | main.cpp:120-139 | The scan returns a result no worse than its starting best and no worse than any free cell it examines. The result is either the starting best or the first free cell reaching its score; every earlier free cell is strictly worse. |
| Minimax.ExhaustiveIsFirstBest | main.cpp:117-139 | On a board with no winner and a free cell, while depth is at least 0 and depth plus the free cells is at most 10, the unpruned search returns a free cell in rows and columns 0..2. That cell scores its child value, no free cell scores better, and every free cell before it in row-major order scores strictly worse. Because the comparison is strict, the first best cell is kept. |
| Minimax.PrunedFailSoft | main.cpp:141-153 | For any window IntMin <= alpha < beta <= IntMax: a pruned score strictly inside the window is the exact minimax value. At or below alpha it is an upper bound of that value, and at or above beta a lower bound. |
| Minimax.PrunedFromFailSoft | main.cpp:120-158 | The loop invariant for pruning: the running best, the narrowed window and the exhaustive running best stay in the fail-soft relation up to the cut-off or the end of the scan. |
| Minimax.PrunedRootIsExhaustive | main.cpp:100-159 | When depth is at least 0 and depth plus the number of free cells is at most 10 (as at the game's root call, depth 0 on nine cells), the pruned search from the window (INT_MIN, INT_MAX) returns exactly the unpruned result, both the score and the cell. |
| Minimax.PrunedFromRoot | main.cpp:117-158 | At the root window each child's pruned score ranks against the running best the same way as its exact score. So the pruned scan and the exhaustive scan pick the same moves. |
| Minimax.PrunedMoveIsFree | main.cpp:117-139 | For any window, while depth is at least 0 and depth plus the free cells is at most 10, the pruned score lies in [depth - 10, 10 - depth]. On a board with no winner and a free cell, the move names a free cell in 0..2. |
| Minimax.ImmediateWinChosen | main.cpp:100-159 | With X X _ / O O _ / _ _ _ and X to move, both the pruned and the unpruned search answer row 0, column 2, value 9. |
| Minimax.EngineMove | main.cpp:236-240 | The engine's call (minimiser, depth 0, window INT_MIN..INT_MAX) on a board with no winner and a free cell leaves the grid unchanged. Its move is the unpruned first-best move, names a free cell and scores within [-10, 10]. |

## Left out

- The SFML window, rendering, fonts and event loop are not modelled. They are presentation and I/O.
- The mapping between pixels and cells (`getGridPositionFromDrawPosition`, `getDrawPositionFromGridPosition`) is not modelled. It is presentation.
- The turn sequencing in the main loop is not modelled: the human's click, `evaluateGameOver` and its messages, writing the engine's move back, and the F5 reset. `EngineMove` keeps only the precondition under which the engine is called.
- Minimax.Minimax: `depth` is an unbounded integer, so `10 - depth` and `depth - 10` cannot overflow. In the game depth never exceeds 9.
- Minimax.PrunedFailSoft: proved only for windows with alpha < beta. The root call opens with (INT_MIN, INT_MAX), and a child is searched only while beta > alpha, so no other window arises.
- Minimax.PrunedRootIsExhaustive: equality with the unpruned search is proved for the root window only. Inside the tree, a cut-off can change which cell a node reports. Such a node's score still obeys the fail-soft bounds.
- Cell values are any ints. The model does not assume they are limited to -1, 0 and 1. Complete lines of two different marks on one board, which legal play cannot reach, are not ruled out: the game reports the first line in its check order, as the model does.
- That an empty board with X to move scores 0 and yields cell (0, 0) is not proved. It needs the whole game tree evaluated, which is beyond what the verifier can unfold.
