/**
 * N-Queens by column-wise backtracking on an n x n grid of 0/1 cells
 * (N-QUEENS-PROBLEM.py), and its fixed-size twin for n = 8
 * (8-QUEENS-PROBLEM.py), which runs the same algorithm on an 8 x 8 grid.
 *
 * The grid is an `array2<int>` that the search updates in place: a queen is
 * placed by writing 1 and taken back by writing 0.  The proofs describe a
 * partially filled grid by the rows of its queens, one per filled column:
 * `qs[c]` is the row of the queen in column `c`.
 */
module Queens {

  /** Side of the grid built for `n`: Python's `range(n)` is empty when `n < 0`. */
  function Side(n: int): nat
  {
    if n < 0 then 0 else n
  }

  predicate WellShaped(board: array2<int>, n: int)
  {
    board.Length0 == Side(n) && board.Length1 == Side(n)
  }

  // ---------------------------------------------------------------------
  // Placements as rows per column
  // ---------------------------------------------------------------------

  predicate InRange(qs: seq<int>, n: int)
  {
    forall c :: 0 <= c < |qs| ==> 0 <= qs[c] < n
  }

  /** Queens at (r1, c1) and (r2, c2) share a row or one of the two diagonals. */
  predicate Attacks(r1: int, c1: int, r2: int, c2: int)
  {
    r1 == r2 || r1 - r2 == c1 - c2 || r1 - r2 == c2 - c1
  }

  /** No two placed queens attack each other (columns differ by construction). */
  predicate Peaceful(qs: seq<int>)
  {
    forall c1, c2 :: 0 <= c1 < c2 < |qs| ==> !Attacks(qs[c1], c1, qs[c2], c2)
  }

  /** A queen in row `row` of the next column, |qs|, is attacked by no placed queen. */
  predicate Compatible(qs: seq<int>, row: int)
  {
    forall c :: 0 <= c < |qs| ==> !Attacks(qs[c], c, row, |qs|)
  }

  /** A complete answer to the n-queens puzzle: one queen per column, none attacked. */
  predicate IsSolution(qs: seq<int>, n: int)
  {
    |qs| == n && InRange(qs, n) && Peaceful(qs)
  }

  ghost predicate Extendable(qs: seq<int>, n: int)
  {
    exists sol :: IsSolution(sol, n) && qs <= sol
  }

  ghost predicate Solvable(n: int)
  {
    exists sol :: IsSolution(sol, n)
  }

  /** The grid holds 1 exactly at (qs[c], c) for every filled column c, and 0 everywhere else. */
  ghost predicate Represents(board: array2<int>, qs: seq<int>)
    reads board
  {
    forall r, c :: 0 <= r < board.Length0 && 0 <= c < board.Length1 ==>
      board[r, c] == if c < |qs| && qs[c] == r then 1 else 0
  }

  /**
   * What `is_safe_to_move(row, col)` checks: no 1 to the left in the same row,
   * none on the up-left diagonal and none on the down-left diagonal, each
   * diagonal starting at (row, col) itself and kept inside the grid.  Only
   * columns up to `col` are mentioned.
   */
  ghost predicate SafeAt(board: array2<int>, n: int, row: int, col: int)
    reads board
    requires WellShaped(board, n) && 0 <= row < n && 0 <= col < n
  {
    && (forall c :: 0 <= c < col ==> board[row, c] != 1)
    && (forall r, c :: 0 <= r <= row && 0 <= c <= col && row - r == col - c ==> board[r, c] != 1)
    && (forall r, c :: row <= r < n && 0 <= c <= col && r - row == col - c ==> board[r, c] != 1)
  }

  // ---------------------------------------------------------------------
  // The operations
  // ---------------------------------------------------------------------

  /** `is_safe_to_move`: three scans of the grid, each stopping at the first queen it meets. */
  method IsSafeToMove(board: array2<int>, n: int, row: int, col: int) returns (safe: bool)
    requires WellShaped(board, n) && 0 <= row < n && 0 <= col < n
    ensures safe == SafeAt(board, n, row, col)
  {
    for i := 0 to col
      invariant forall c :: 0 <= c < i ==> board[row, c] != 1
    {
      if board[row, i] == 1 {
        return false;
      }
    }

    var i, j := row, col;
    while i >= 0 && j >= 0
      invariant -1 <= i <= row && -1 <= j <= col && row - i == col - j
      invariant forall r, c :: i < r <= row && 0 <= c <= col && row - r == col - c ==> board[r, c] != 1
    {
      if board[i, j] == 1 {
        return false;
      }
      i, j := i - 1, j - 1;
    }

    i, j := row, col;
    while i < n && j >= 0
      invariant row <= i <= n && -1 <= j <= col && i - row == col - j
      invariant forall r, c :: row <= r < i && 0 <= c <= col && r - row == col - c ==> board[r, c] != 1
    {
      if board[i, j] == 1 {
        return false;
      }
      i, j := i + 1, j - 1;
    }

    return true;
  }

  /**
   * `solve(col)`: try every row of column `col` from the top, place a queen
   * where it is safe, recurse on the next column, and take the queen back
   * when the recursion fails.  Columns before `col` hold the placement `qs`.
   */
  method Solve(board: array2<int>, n: int, col: int, ghost qs: seq<int>) returns (found: bool, ghost sol: seq<int>)
    requires WellShaped(board, n)
    requires col == |qs| && (col <= n || col == 0)
    requires InRange(qs, n) && Peaceful(qs) && Represents(board, qs)
    modifies board
    decreases n - col
    ensures found ==> IsSolution(sol, n) && qs <= sol && Represents(board, sol)
    ensures !found ==> !Extendable(qs, n) && Represents(board, qs)
    ensures !found ==> forall r, c :: 0 <= r < board.Length0 && 0 <= c < board.Length1 ==> board[r, c] == old(board[r, c])
  {
    if col == n {
      return true, qs;
    }

    var i := 0;
    while i < n
      invariant 0 <= i <= Side(n)
      invariant Represents(board, qs)
      invariant forall r :: 0 <= r < i ==> !Extendable(qs + [r], n)
    {
      var safe := IsSafeToMove(board, n, i, col);
      SafeIffCompatible(board, n, qs, i);
      if safe {
        board[i, col] := 1;
        PlaceQueen(board, qs, i);
        PeacefulSnoc(qs, i);
        found, sol := Solve(board, n, col + 1, qs + [i]);
        if found {
          return;
        }
        board[i, col] := 0;
      } else if Extendable(qs + [i], n) {
        ExtendableCompatible(qs, i, n);
        assert false;
      }
      i := i + 1;
    }

    if n >= 0 && Extendable(qs, n) {
      ExtendableHasNextRow(qs, n);
      assert false;
    }
    found, sol := false, qs;
  }

  // ---------------------------------------------------------------------
  // Lemmas
  // ---------------------------------------------------------------------

  /** On a grid holding exactly the placement `qs`, the three scans see a queen iff one attacks (row, |qs|). */
  lemma SafeIffCompatible(board: array2<int>, n: int, qs: seq<int>, row: int)
    requires WellShaped(board, n) && |qs| < n && 0 <= row < n
    requires InRange(qs, n) && Represents(board, qs)
    ensures SafeAt(board, n, row, |qs|) <==> Compatible(qs, row)
  {
    var col := |qs|;
    if SafeAt(board, n, row, col) {
      forall c | 0 <= c < col
        ensures !Attacks(qs[c], c, row, col)
      {
        assert board[qs[c], c] == 1;
      }
    }
    if Compatible(qs, row) {
      forall r, c | 0 <= r < n && 0 <= c <= col && board[r, c] == 1
        ensures c < col && qs[c] == r && !Attacks(r, c, row, col)
      {
      }
    }
  }

  /** Writing a queen at (row, |qs|) into a grid that holds `qs` yields a grid that holds `qs + [row]`. */
  lemma PlaceQueen(board: array2<int>, qs: seq<int>, row: int)
    requires |qs| < board.Length1 && 0 <= row < board.Length0
    requires forall r, c :: 0 <= r < board.Length0 && 0 <= c < board.Length1 && c != |qs| ==>
      board[r, c] == if c < |qs| && qs[c] == r then 1 else 0
    requires forall r :: 0 <= r < board.Length0 ==> board[r, |qs|] == if r == row then 1 else 0
    ensures Represents(board, qs + [row])
  {
  }

  lemma PeacefulSnoc(qs: seq<int>, row: int)
    ensures Peaceful(qs + [row]) <==> Peaceful(qs) && Compatible(qs, row)
  {
    var s := qs + [row];
    if Peaceful(s) {
      forall c | 0 <= c < |qs|
        ensures !Attacks(qs[c], c, row, |qs|)
      {
        assert s[c] == qs[c] && s[|qs|] == row;
      }
      forall c1, c2 | 0 <= c1 < c2 < |qs|
        ensures !Attacks(qs[c1], c1, qs[c2], c2)
      {
        assert s[c1] == qs[c1] && s[c2] == qs[c2];
      }
    }
    if Peaceful(qs) && Compatible(qs, row) {
      forall c1, c2 | 0 <= c1 < c2 < |s|
        ensures !Attacks(s[c1], c1, s[c2], c2)
      {
        if c2 < |qs| {
          assert s[c1] == qs[c1] && s[c2] == qs[c2];
        } else {
          assert s[c1] == qs[c1] && s[c2] == row;
        }
      }
    }
  }

  /** A placement that some solution extends leaves a compatible row for the next column. */
  lemma ExtendableCompatible(qs: seq<int>, row: int, n: int)
    requires Extendable(qs + [row], n)
    ensures Compatible(qs, row)
  {
    var sol :| IsSolution(sol, n) && qs + [row] <= sol;
    forall c | 0 <= c < |qs|
      ensures !Attacks(qs[c], c, row, |qs|)
    {
      assert sol[c] == qs[c] && sol[|qs|] == row;
    }
  }

  /** A placement of fewer than n columns that some solution extends can be extended by one row. */
  lemma ExtendableHasNextRow(qs: seq<int>, n: int)
    requires |qs| < n && Extendable(qs, n)
    ensures exists r :: 0 <= r < n && Extendable(qs + [r], n)
  {
    var sol :| IsSolution(sol, n) && qs <= sol;
    var r := sol[|qs|];
    assert qs + [r] <= sol;
  }

  /**
   * The grid a successful search leaves: every cell is 0 or 1, every column
   * holds exactly one queen, and no two queens share a row or a diagonal.
   */
  lemma SolutionGrid(board: array2<int>, n: int, qs: seq<int>)
    requires WellShaped(board, n) && IsSolution(qs, n) && Represents(board, qs)
    ensures forall r, c :: 0 <= r < n && 0 <= c < n ==> board[r, c] == 0 || board[r, c] == 1
    ensures forall c :: 0 <= c < n ==> board[qs[c], c] == 1 && forall r :: 0 <= r < n && r != qs[c] ==> board[r, c] == 0
    ensures forall r1, c1, r2, c2 ::
      0 <= r1 < n && 0 <= c1 < n && 0 <= r2 < n && 0 <= c2 < n &&
      board[r1, c1] == 1 && board[r2, c2] == 1 && (r1 != r2 || c1 != c2) ==>
        c1 != c2 && !Attacks(r1, c1, r2, c2)
  {
    forall r1, c1, r2, c2 |
      0 <= r1 < n && 0 <= c1 < n && 0 <= r2 < n && 0 <= c2 < n &&
      board[r1, c1] == 1 && board[r2, c2] == 1 && (r1 != r2 || c1 != c2)
      ensures c1 != c2 && !Attacks(r1, c1, r2, c2)
    {
      assert qs[c1] == r1 && qs[c2] == r2;
      if c2 < c1 {
        assert !Attacks(qs[c2], c2, qs[c1], c1);
      }
    }
  }

  lemma SolvableIffExtendable(n: int)
    ensures Solvable(n) <==> Extendable([], n)
  {
    if Solvable(n) {
      var s :| IsSolution(s, n);
      assert [] <= s;
    }
  }

  lemma EightQueensSolvable()
    ensures Solvable(8)
  {
    var w := [0, 4, 7, 5, 2, 6, 1, 3];
    // Place the queens column by column, checking each against those before it.
    var i := 1;
    assert Peaceful(w[..1]);
    while i < 8
      invariant 1 <= i <= 8 && Peaceful(w[..i])
    {
      assert w[..i + 1] == w[..i] + [w[i]];
      assert Compatible(w[..i], w[i]);
      PeacefulSnoc(w[..i], w[i]);
      i := i + 1;
    }
    assert w[..8] == w;
    assert IsSolution(w, 8);
  }

  lemma TwoQueensUnsolvable()
    ensures !Solvable(2)
  {
    forall sol | |sol| == 2 && InRange(sol, 2)
      ensures !Peaceful(sol)
    {
      assert Attacks(sol[0], 0, sol[1], 1);
    }
  }

  lemma ThreeQueensUnsolvable()
    ensures !Solvable(3)
  {
    forall sol | |sol| == 3 && InRange(sol, 3)
      ensures !Peaceful(sol)
    {
      assert Attacks(sol[0], 0, sol[1], 1) || Attacks(sol[1], 1, sol[2], 2) || Attacks(sol[0], 0, sol[2], 2);
    }
  }

  // ---------------------------------------------------------------------
  // The two classes
  // ---------------------------------------------------------------------

  /** `NQueens(n)`: an n x n grid of zeros, searched from column 0; `None` when the search fails. */
  class NQueens {
    const n: int
    var solution: array2?<int>
    ghost var queens: seq<int>

    constructor (n: int)
      ensures this.n == n
      ensures solution == null <==> !Solvable(n)
      ensures solution != null ==>
        fresh(solution) && WellShaped(solution, n) && IsSolution(queens, n) && Represents(solution, queens)
    {
      this.n := n;
      var board := new int[Side(n), Side(n)]((r, c) => 0);
      solution := board;
      queens := [];
      new;
      var found, sol := Solve(board, n, 0, []);
      SolvableIffExtendable(n);
      if found {
        queens := sol;
      } else {
        solution := null;
      }
    }
  }

  /** `EightQueens()`: the same search on an 8 x 8 grid; it always succeeds. */
  class EightQueens {
    var solution: array2?<int>
    ghost var queens: seq<int>

    constructor ()
      ensures solution != null && fresh(solution)
      ensures WellShaped(solution, 8) && IsSolution(queens, 8) && Represents(solution, queens)
    {
      var board := new int[8, 8]((r, c) => 0);
      solution := board;
      queens := [];
      new;
      var found, sol := Solve(board, 8, 0, []);
      if !found {
        SolvableIffExtendable(8);
        EightQueensSolvable();
        assert false;
      }
      queens := sol;
    }
  }
}
