# Search and game-playing demonstrations, modelled in Dafny

This project models four small Python algorithm demonstrations and proves
what each one computes.

- **N-Queens** (`N-QUEENS-PROBLEM.py`) and its fixed-size twin **8-Queens**
  (`8-QUEENS-PROBLEM.py`), in `queens.dfy`.
  - The grid is an `array2<int>` of 0/1 cells that the backtracking search
    updates in place. A queen is placed by writing 1 and taken back by
    writing 0.
  - The proofs describe a partly filled grid by a ghost sequence `qs`: the
    row of the queen in each filled column.
  - 8-Queens is the same algorithm at n = 8. Its class runs the shared
    `IsSafeToMove`/`Solve` on an 8 x 8 grid.
- **Tic-tac-toe with a memoised minimax player** (`MIN-MAX.py`), in
  `minmax.dfy`.
  - A board is nine characters, with `' '` for a free square.
  - `TicTacToe` holds the board and the recorded winner, and `MakeMove`
    updates them in place.
  - Minimax works on copies of the game. These are plain values of type
    `Game`.
  - `BestOutcome` is the function that specifies the answer of
    `AIPlayer.Minimax` on a game reached by alternate play from the empty
    board, asked for the player to move, with a memo whose every entry is
    such an answer. `AIPlayer.Minimax` is the memoising method, and
    `AIPlayer.BestMove` is its loop over the free squares.
- **Grid A\* search** (`AStarSearch.py`), in `astar.dfy`.
  - Nodes are values with a parent chain: `Node(position, parent, g, h, f)`.
  - `AStarSearch` keeps the heuristic memo as a field.
  - `Search` loops over an open list and a closed set. `Expand` is its inner
    loop over the neighbours.
  - The binary heap is abstracted: a pop takes any open node of least `f`.

`wrappers.dfy` holds the `Option` type used by the last two modules.

## Model

| member | source | states |
|---|---|---|
| Queens.IsSafeToMove | N-QUEENS-PROBLEM.py:14-27 | The result is true exactly when there is no queen to the left in the same row, and none on the up-left or the down-left diagonal through (row, col), each diagonal kept inside the grid. No column right of `col` is consulted. |
| Queens.SafeIffCompatible | N-QUEENS-PROBLEM.py:14-27 | On a grid that holds exactly the queens `qs` of the filled columns, the safety check for the next column holds iff no placed queen shares the row or a diagonal with the new one. |
| Queens.Solve | N-QUEENS-PROBLEM.py:29-40 | Columns before `col` hold a peaceful placement `qs`. On true, the grid holds a complete solution that extends `qs`: one queen per column, none attacking another. On false, no solution extends `qs`, and every cell is as it was on entry. |
| Queens.PeacefulSnoc | N-QUEENS-PROBLEM.py:33-36 | Adding a queen in the next column keeps the placement peaceful iff the new queen is attacked by no placed queen. |
| Queens.ExtendableCompatible | N-QUEENS-PROBLEM.py:33-38 | A row that some solution uses in the next column passes the safety check. This is why the search may skip unsafe rows without losing solutions. |
| Queens.ExtendableHasNextRow | N-QUEENS-PROBLEM.py:33-40 | A placement that some solution extends can be continued in some row of the next column. So a search that tries every row and fails proves there is no solution. |
| Queens.SolutionGrid | N-QUEENS-PROBLEM.py:10-12 | The grid of a solution has only 0/1 cells and exactly one 1 per column, and no two 1s share a row or a diagonal. |
| Queens.SolvableIffExtendable | N-QUEENS-PROBLEM.py:11-12 | A solution exists iff the empty placement can be extended, which is what `solve(0)` decides. |
| Queens.NQueens.constructor | N-QUEENS-PROBLEM.py:8-12 | `solution` is null exactly when no n-queens solution exists. Otherwise it is an n x n grid holding one. |
| Queens.EightQueens.constructor | 8-QUEENS-PROBLEM.py:7-38 | It runs the shared safety check and backtracking search with n = 8. `solution` is never null: it is an 8 x 8 grid holding an 8-queens solution. |
| Queens.EightQueensSolvable | 8-QUEENS-PROBLEM.py:9-10 | An 8-queens solution exists, so the constructor never sets `solution` to null. |
| Queens.TwoQueensUnsolvable | N-QUEENS-PROBLEM.py:11-12 | No 2-queens solution exists, so `NQueens(2)` ends with `solution` null. |
| Queens.ThreeQueensUnsolvable | N-QUEENS-PROBLEM.py:11-12 | No 3-queens solution exists, so `NQueens(3)` ends with `solution` null. |
| MinMax.Other | MIN-MAX.py:97 | The other player is a letter, and it differs from the given letter. |
| MinMax.TicTacToe.constructor | MIN-MAX.py:8-10 | A new game has nine free squares and no winner. |
| MinMax.AvailableMoves | MIN-MAX.py:19-20 | The moves are exactly the indices of the free squares, in strictly increasing order. Their number is the count of free squares. |
| MinMax.EmptySquaresIffCount | MIN-MAX.py:22-26 | `empty_squares` holds iff `num_empty_squares` is positive, and that count is the number of available moves. |
| MinMax.BoardToKey | MIN-MAX.py:88-89 | Joining the one-character cells gives a key that spells the board cell for cell. |
| MinMax.BoardToKeyInjective | MIN-MAX.py:88-94 | Two boards have the same key iff they are the same board, so a memo entry belongs to exactly one board. |
| MinMax.WinnerSound | MIN-MAX.py:36-50 | When `winner(square, letter)` reports a win, some row, column or diagonal is all `letter`. |
| MinMax.WinnerComplete | MIN-MAX.py:36-50 | Every line through `square` that is all `letter` makes `winner(square, letter)` report a win. |
| MinMax.AfterMove | MIN-MAX.py:28-34 | The other eight cells keep their values. A recorded winner is never cleared. A newly recorded winner is the mover, and the mover owns a line. A move on a free square uses up exactly one free square. |
| MinMax.TicTacToe.MakeMove | MIN-MAX.py:28-34 | The result is true iff the square was free. The new board and winner are those of `AfterMove`. |
| MinMax.LineAfterMove | MIN-MAX.py:31-32 | A line on the board after a move is an old line, or a line through the square just played that `winner` reports for the mover. |
| MinMax.MovePreservesConsistent | MIN-MAX.py:28-34 | In a game of alternate play from the empty board, a move by the player to move on a free square leads to another such game. The recorded winner is then the one the board shows, and the turn passes to the other player. |
| MinMax.NewGameConsistent | MIN-MAX.py:8-10 | A new game is a game of alternate play with X to move. |
| MinMax.BestOutcome | MIN-MAX.py:96-128 | Scores lie in [-10, 10]. There is no position exactly when the opponent of `player` has won or the board is full. Otherwise the position is a free square. |
| MinMax.ScanIsFirstBest | MIN-MAX.py:108-125 | The loop's answer is the move at some index `k` with its own score. No score beats it, with `>` for the AI and `<` for its opponent. Every score before `k` is strictly worse, so ties keep the earliest move. |
| MinMax.ScanMovesIsScan | MIN-MAX.py:113-125 | The loop over the moves equals the loop over their child scores, in order. |
| MinMax.MinimaxPicksFirstBest | MIN-MAX.py:108-125 | Away from the end of a game, minimax answers the first free square whose child score no other free square beats (the maximum for the AI, the minimum for its opponent), together with that score. |
| MinMax.MemoHit | MIN-MAX.py:92-94 | A memo hit on a game of alternate play is that game's minimax answer. |
| MinMax.MemoSoundInsert | MIN-MAX.py:127 | Storing a game's minimax answer under its key keeps every memo entry correct. |
| MinMax.MemoWellFormedInsert | MIN-MAX.py:127 | Storing an answer that names a free square of its board, with a score in [-10, 10], keeps every memo entry of that shape. |
| MinMax.AIPlayer.constructor | MIN-MAX.py:77-79 | The player has the given letter and an empty memo, which is trivially well formed. |
| MinMax.AIPlayer.Minimax | MIN-MAX.py:91-128 | A memoised board returns its stored answer, whoever `player` is, and leaves the memo unchanged. A win for the other player or a full board returns without touching the memo. Any other board not yet memoised is stored under its key with the answer returned. So the answer names no square exactly when the board was not memoised and is a win for the other player or full, and on every such board the answer is `BestOutcome`'s: a win for the other player scores plus or minus the number of free squares plus one, and a full board scores 0. Old entries are never changed, a returned square is free, and the score lies in [-10, 10] on every game. On a game of alternate play asked for the player to move, with a correct memo, the answer is `BestOutcome` and the memo stays correct. |
| MinMax.AIPlayer.TryMove | MIN-MAX.py:113-116 | The move is a free square. Playing it on a copy and asking minimax for the other player gives a score in [-10, 10], and old memo entries are kept. When the child board was memoised, the score is the stored one. When it was not, and it is won by the mover or full, the score is the move's child score under `BestOutcome`. On a game of alternate play asked for the player to move, with a correct memo, the score is always that child score and the memo stays correct. |
| MinMax.AIPlayer.BestMove | MIN-MAX.py:108-125 | On every game the loop ends holding a square, never the `-math.inf`/`math.inf` start: the returned square is free and its score lies in [-10, 10]. Old memo entries are kept. On a game of alternate play asked for the player to move, with a correct memo, the loop's answer is `BestOutcome` and the memo stays correct. |
| MinMax.AIPlayer.GetMove | MIN-MAX.py:81-86 | The square is always an available move. Old memo entries are kept and the memo stays well formed. On a board that is not empty and not won by the opponent, the square returned is the one minimax has memoised for that board. On a game of alternate play with the AI to move and a correct memo, the memo stays correct; when, in addition, the board is not empty and minimax names a square, that square is the one returned. |
| MinMax.Play | MIN-MAX.py:131-149 | The winner and the final game are those of `PlayOut`, the move-by-move rules of `play` over the squares the players hand in. |
| MinMax.PlayOutResult | MIN-MAX.py:131-149 | From an unfinished game of alternate play, `play` names a winner only when that letter owns a line. A tie is declared only when nobody owns a line and the board is full, or when the players hand in no more squares. |
| AStar.AStarSearch.constructor | AStarSearch.py:14-17 | The search has the given start, goal and grid size, and an empty memo. |
| AStar.AStarSearch.Heuristic | AStarSearch.py:19-22 | The result is the Manhattan distance to the goal. The memo gains that entry, and every memo entry stays the Manhattan distance of its position. |
| AStar.AStarSearch.HeuristicTwice | AStarSearch.py:19-22 | Two calls on the same position return the same value, and the memo ends as it was after the first call. |
| AStar.AStarSearch.GetNeighbors | AStarSearch.py:24-28 | At most four nodes. Each has the given node as parent and `g = h = f = 0`. |
| AStar.AStarSearch.NeighborsAreAdjacentCells | AStarSearch.py:24-28 | A position is a neighbour iff it is a grid cell one step away. The neighbours come in the order (0,1), (1,0), (0,-1), (-1,0), so no position repeats. |
| AStar.AdjacentIsMove | AStarSearch.py:25-26 | Two positions are one step apart iff one of the four moves leads from the first to the second. |
| AStar.PathToShape | AStarSearch.py:30-35 | The path of a node has as many elements as its parent chain and ends at the node's position. |
| AStar.AStarSearch.ReconstructPath | AStarSearch.py:30-35 | The result is the positions of the parent chain, from the root to the node. |
| AStar.AStarSearch.NodeWalk | AStarSearch.py:50-56 | The path of a node built by the search is a walk of grid steps from the start to that node, and it has `g + 1` positions. |
| AStar.AStarSearch.FreshNeighborNeverImproves | AStarSearch.py:50-52 | `tentative_g < neighbor.g` is never true. It compares against a fresh neighbour whose `g` is 0, so an open node is never updated. |
| AStar.FirstAt | AStarSearch.py:51 | The node found is in the open list at the position asked for. None is returned exactly when no open node has that position. |
| AStar.LeastFExists | AStarSearch.py:10-11 | A non-empty open list has a node of least `f`. |
| AStar.AStarSearch.WalksStayClosed | AStarSearch.py:41-59 | When the closed set holds the start and every grid neighbour of its members, it holds every position a walk from the start reaches. |
| AStar.FreshMembers | AStarSearch.py:47-58 | A position is among the fresh positions of a list of neighbours iff it is one of their positions and is neither closed nor already open. |
| AStar.FreshInOrder | AStarSearch.py:47 | Dropping closed and open positions keeps the remaining neighbours in the order of the moves. |
| AStar.AStarSearch.FreshNeighbors | AStarSearch.py:24-28 | The positions one expansion pushes are exactly the grid cells one step from the node that are neither closed nor open, in the order (0,1), (1,0), (0,-1), (-1,0), with no repeats. |
| AStar.AStarSearch.ExpandSkip | AStarSearch.py:48-49 | A neighbour that is closed, or already open, changes neither the open list nor the pushed positions. |
| AStar.AStarSearch.ExpandPush | AStarSearch.py:52-58 | A neighbour neither closed nor open is appended to the open list as a child of the expanded node, and its position to the pushed positions, which then stay distinct. |
| AStar.AStarSearch.Expand | AStarSearch.py:47-58 | The open nodes already there are kept unchanged, so no open node is ever updated. The nodes appended are exactly the neighbours neither closed nor open before, in the order of the moves, each pushed once with the expanded node as parent and `g` one more than its parent's (with `h` the Manhattan distance and `f = g + h`). Their positions are appended to the pushed positions. The heuristic memo keeps every entry and gains exactly the appended positions. Afterwards every grid cell next to the expanded node is closed or open, and no position is open twice. |
| AStar.AStarSearch.Search | AStarSearch.py:37-59 | A returned path is a walk of grid steps from the start to the goal. When start and goal coincide the path is `[start]`. None is returned only when no walk from the start reaches the goal. The start is pushed first, every position is pushed at most once, and only grid cells and the start are pushed, so the loop ends. The heuristic memo keeps every entry it had. |

## Left out

- Console I/O is not modelled: the `__main__` blocks, `print_board`, `HumanPlayer.get_move`, `get_input` and the printing branches of `play`.
- The `__str__` rendering of the queens grids is presentation only and is not modelled.
- MinMax.AIPlayer.GetMove: `random.choice` is modelled as "some available move". Which square it picks is left open.
- MinMax.BestOutcome: the `-math.inf`/`math.inf` starting scores are the integers -100 and 100. Every real score lies in [-10, 10], so every comparison comes out the same.
- MinMax.AIPlayer.Minimax: `copy.deepcopy` of the game is a value copy of type `Game`. The recursion never shares the caller's board.
- MinMax.AIPlayer.Minimax: a non-terminal answer is tied to `BestOutcome` only for games reachable by alternate play (`Consistent`) where the player to move is asked. On other games a non-terminal answer is only bounded: its square is free and its score lies in [-10, 10]. Terminal answers on boards not yet memoised are `BestOutcome`'s on every game. `BestOutcome` assumes the turn alternates, and a memo entry keyed by the board alone is correct only under that assumption.
- MinMax.AIPlayer.TryMove: the child score is tied to `ChildScore` only under the same condition as `Minimax`, or when the child board is finished and not memoised. On every game it lies in [-10, 10], equals the stored score on a memo hit, and old memo entries are kept.
- MinMax.AIPlayer.BestMove: the loop's answer is tied to `BestOutcome` only under the same condition as `Minimax`. On every game it is proved to hold a free square with a score in [-10, 10].
- MinMax.AIPlayer.GetMove: the returned square is tied to `BestOutcome` only under the same condition as `Minimax`. On every other board that is neither empty nor won by the opponent, it is the square of the memo entry minimax leaves for that board.
- MinMax.Play: the two players are a given sequence of squares, handed in turn. The loop also stops when the sequence runs out, which the interactive game never does.
- AStar.AStarSearch.Search: `heapq` is abstracted to an open list from which any node of least `f` is popped. Which of several least-`f` nodes comes first is left open.
- AStar.AStarSearch.Search: the returned path is proved to be a walk of grid steps, but is not claimed to be a shortest one.
- AStar.AStarSearch.Expand: nodes are immutable values, so the field updates on `neighbor` build a new node instead of changing one in place.
- `Node.__lt__` is modelled only as comparing `f` (`LeastF`).
- No resolution prover or unification algorithm is part of these four files, and none is modelled.
