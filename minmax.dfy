/**
 * Tic-tac-toe with a memoised minimax player (MIN-MAX.py).
 *
 * A board is nine characters, ' ' for a free square.  The game object
 * (`TicTacToe`) holds the board and the winner recorded so far; minimax
 * works on copies, which here are plain values of type `Game`.
 */
module MinMax {
  import opened Wrappers

  const Blank: char := ' '

  /** The two letters the game is played with. */
  predicate IsLetter(c: char)
  {
    c == 'X' || c == 'O'
  }

  /** The opponent's letter: O for X, and X for anything else. */
  function Other(player: char): (o: char)
    ensures IsLetter(o) && o != Blank
    ensures IsLetter(player) ==> o != player
  {
    if player == 'X' then 'O' else 'X'
  }

  datatype Game = Game(board: seq<char>, currentWinner: Option<char>)

  // ---------------------------------------------------------------------
  // Queries on a board
  // ---------------------------------------------------------------------

  /** How many cells of the board hold the character `c`. */
  function Count(b: seq<char>, c: char): (k: nat)
    ensures k <= |b|
  {
    if b == [] then 0 else (if b[0] == c then 1 else 0) + Count(b[1..], c)
  }

  /** How many squares are still free. */
  function NumEmptySquares(b: seq<char>): nat
  {
    Count(b, Blank)
  }

  /** `empty_squares`: the board has at least one free square. */
  predicate EmptySquares(b: seq<char>)
  {
    Blank in b
  }

  /** The free squares from index `i` on, in increasing order. */
  function MovesFrom(b: seq<char>, i: nat): (moves: seq<int>)
    requires i <= |b|
    decreases |b| - i
    ensures forall k :: 0 <= k < |moves| ==> i <= moves[k] < |b| && b[moves[k]] == Blank
    ensures forall j :: i <= j < |b| && b[j] == Blank ==> j in moves
    ensures forall k1, k2 :: 0 <= k1 < k2 < |moves| ==> moves[k1] < moves[k2]
  {
    if i == |b| then []
    else (if b[i] == Blank then [i] else []) + MovesFrom(b, i + 1)
  }

  /** `available_moves`: the indices of the free squares, in increasing order. */
  function AvailableMoves(b: seq<char>): (moves: seq<int>)
    ensures forall j :: j in moves <==> 0 <= j < |b| && b[j] == Blank
    ensures forall k1, k2 :: 0 <= k1 < k2 < |moves| ==> moves[k1] < moves[k2]
    ensures |moves| == NumEmptySquares(b)
  {
    MovesFromCount(b, 0);
    MovesFrom(b, 0)
  }

  /**
   * `board_to_key`: `''.join(board)`, each cell a one-character string
   * appended in order; the key spells out the board cell for cell.
   */
  function BoardToKey(b: seq<char>): (key: string)
    ensures key == b
  {
    if b == [] then "" else [b[0]] + BoardToKey(b[1..])
  }

  /** Two boards share a key exactly when they are the same board. */
  lemma BoardToKeyInjective(b1: seq<char>, b2: seq<char>)
    ensures BoardToKey(b1) == BoardToKey(b2) <==> b1 == b2
  {
  }

  // ---------------------------------------------------------------------
  // Three in a row
  // ---------------------------------------------------------------------

  /** Every one of the cells holds `letter`. */
  predicate AllAre(cells: seq<char>, letter: char)
  {
    forall k :: 0 <= k < |cells| ==> cells[k] == letter
  }

  /**
   * `winner(square, letter)`: the row of `square`, then its column, and for
   * an even square both diagonals, checked for being all `letter`.
   */
  predicate Winner(b: seq<char>, square: int, letter: char)
    requires |b| == 9 && 0 <= square < 9
  {
    var rowInd := square / 3;
    var row := b[rowInd * 3 .. (rowInd + 1) * 3];
    if AllAre(row, letter) then true
    else
      var colInd := square % 3;
      var column := [b[colInd], b[colInd + 3], b[colInd + 6]];
      if AllAre(column, letter) then true
      else if square % 2 == 0 then
        AllAre([b[0], b[4], b[8]], letter) || AllAre([b[2], b[4], b[6]], letter)
      else
        false
  }

  /** The eight lines of the game, listed outright: three rows, three columns, two diagonals. */
  function Line(i: int): (cells: seq<int>)
    requires 0 <= i < 8
    ensures |cells| == 3 && forall k :: 0 <= k < 3 ==> 0 <= cells[k] < 9
  {
    match i
    case 0 => [0, 1, 2]
    case 1 => [3, 4, 5]
    case 2 => [6, 7, 8]
    case 3 => [0, 3, 6]
    case 4 => [1, 4, 7]
    case 5 => [2, 5, 8]
    case 6 => [0, 4, 8]
    case _ => [2, 4, 6]
  }

  predicate Owns(b: seq<char>, i: int, letter: char)
    requires |b| == 9 && 0 <= i < 8
  {
    var cells := Line(i);
    b[cells[0]] == letter && b[cells[1]] == letter && b[cells[2]] == letter
  }

  /** `letter` has three in a row somewhere on the board. */
  predicate HasLine(b: seq<char>, letter: char)
    requires |b| == 9
  {
    exists i :: 0 <= i < 8 && Owns(b, i, letter)
  }

  /** A row all `letter` is one of the eight lines. */
  lemma RowWins(b: seq<char>, r: int, letter: char)
    requires |b| == 9 && 0 <= r < 3 && AllAre(b[r * 3 .. (r + 1) * 3], letter)
    ensures HasLine(b, letter)
  {
    var row := b[r * 3 .. (r + 1) * 3];
    assert row[0] == b[3 * r] && row[1] == b[3 * r + 1] && row[2] == b[3 * r + 2];
    assert row[0] == letter && row[1] == letter && row[2] == letter;
    assert Owns(b, r, letter);
  }

  /** A column all `letter` is one of the eight lines. */
  lemma ColumnWins(b: seq<char>, c: int, letter: char)
    requires |b| == 9 && 0 <= c < 3 && AllAre([b[c], b[c + 3], b[c + 6]], letter)
    ensures HasLine(b, letter)
  {
    var column := [b[c], b[c + 3], b[c + 6]];
    assert column[0] == letter && column[1] == letter && column[2] == letter;
    assert Owns(b, 3 + c, letter);
  }

  /** `winner` only reports a line that really is all `letter`. */
  lemma WinnerSound(b: seq<char>, square: int, letter: char)
    requires |b| == 9 && 0 <= square < 9 && Winner(b, square, letter)
    ensures HasLine(b, letter)
  {
    var r, c := square / 3, square % 3;
    if AllAre(b[r * 3 .. (r + 1) * 3], letter) {
      RowWins(b, r, letter);
    } else if AllAre([b[c], b[c + 3], b[c + 6]], letter) {
      ColumnWins(b, c, letter);
    } else if AllAre([b[0], b[4], b[8]], letter) {
      var diagonal := [b[0], b[4], b[8]];
      assert diagonal[0] == letter && diagonal[1] == letter && diagonal[2] == letter;
      assert Owns(b, 6, letter);
    } else {
      var diagonal := [b[2], b[4], b[6]];
      assert diagonal[0] == letter && diagonal[1] == letter && diagonal[2] == letter;
      assert Owns(b, 7, letter);
    }
  }

  /** `winner(square, letter)` finds every line through `square` that is all `letter`. */
  lemma WinnerComplete(b: seq<char>, square: int, letter: char, i: int)
    requires |b| == 9 && 0 <= i < 8 && square in Line(i) && Owns(b, i, letter)
    ensures Winner(b, square, letter)
  {
    var r, c := square / 3, square % 3;
    assert b[r * 3 .. (r + 1) * 3] == [b[3 * r], b[3 * r + 1], b[3 * r + 2]];
  }

  // ---------------------------------------------------------------------
  // Moves
  // ---------------------------------------------------------------------

  /**
   * The game `make_move(square, letter)` leaves behind: on a free square the
   * letter is written and the winner recorded if `winner` says so; on a
   * taken square nothing changes.
   */
  function AfterMove(g: Game, square: int, letter: char): (r: Game)
    requires |g.board| == 9 && 0 <= square < 9
    ensures |r.board| == 9
    ensures forall j :: 0 <= j < 9 && j != square ==> r.board[j] == g.board[j]
    ensures g.currentWinner.Some? ==> r.currentWinner.Some?
    ensures r.currentWinner != g.currentWinner ==> r.currentWinner == Some(letter) && HasLine(r.board, letter)
    ensures g.board[square] == Blank && letter != Blank ==> NumEmptySquares(r.board) + 1 == NumEmptySquares(g.board)
  {
    if g.board[square] == Blank then
      var b := g.board[square := letter];
      CountUpdate(g.board, square, letter, Blank);
      if Winner(b, square, letter) then
        WinnerSound(b, square, letter);
        Game(b, Some(letter))
      else
        Game(b, g.currentWinner)
    else
      g
  }

  class TicTacToe {
    var board: seq<char>
    var currentWinner: Option<char>

    function State(): Game
      reads this
    {
      Game(board, currentWinner)
    }

    /** A new game: nine free squares and no winner. */
    constructor ()
      ensures |board| == 9 && forall i :: 0 <= i < 9 ==> board[i] == Blank
      ensures currentWinner == None
    {
      board := seq(9, _ => Blank);
      currentWinner := None;
    }

    /** `make_move`: true and the letter written when the square is free, false and no change otherwise. */
    method MakeMove(square: int, letter: char) returns (ok: bool)
      requires |board| == 9 && 0 <= square < 9
      modifies this
      ensures ok == (old(board)[square] == Blank)
      ensures State() == AfterMove(old(State()), square, letter)
    {
      if board[square] == Blank {
        board := board[square := letter];
        if Winner(board, square, letter) {
          currentWinner := Some(letter);
        }
        return true;
      }
      return false;
    }
  }

  // ---------------------------------------------------------------------
  // Minimax, as a function of the position
  // ---------------------------------------------------------------------

  /** A minimax answer: the square to play (`None` at the end of a game) and its score. */
  datatype Outcome = Outcome(position: Option<int>, score: int)

  /** Integer stand-ins for `-math.inf` and `math.inf`: every real score lies in [-10, 10]. */
  const NegInf: int := -100
  const PosInf: int := 100

  /** The comparison minimax uses to replace its best answer: `>` for the AI, `<` for the opponent. */
  predicate Improves(maximize: bool, s: int, t: int)
  {
    if maximize then s > t else s < t
  }

  /** The answer minimax starts its loop from: `-math.inf` for the AI, `math.inf` for its opponent. */
  function Sentinel(maximize: bool): Outcome
  {
    if maximize then Outcome(None, NegInf) else Outcome(None, PosInf)
  }

  /**
   * What `minimax(game, player)` returns when its memo is empty: the
   * opponent's win scores ±(free squares + 1), a full board 0, and otherwise
   * the answer of the loop over all the free squares in increasing order.
   */
  function BestOutcome(g: Game, player: char, ai: char): (r: Outcome)
    requires |g.board| == 9 && player != Blank
    decreases NumEmptySquares(g.board), 1
    ensures -10 <= r.score <= 10
    ensures r.position.None? <==> g.currentWinner == Some(Other(player)) || !EmptySquares(g.board)
    ensures r.position.Some? ==> 0 <= r.position.value < 9 && g.board[r.position.value] == Blank
  {
    var other := Other(player);
    if g.currentWinner == Some(other) then
      var e := NumEmptySquares(g.board);
      Outcome(None, if other == ai then 1 * (e + 1) else -1 * (e + 1))
    else if !EmptySquares(g.board) then
      Outcome(None, 0)
    else
      var moves := AvailableMoves(g.board);
      CountPositive(g.board, Blank);
      MovesAreFree(g);
      var r := ScanMoves(g, player, ai, moves, |moves|);
      assert r.position.value in moves;
      r
  }

  /** Every square `available_moves()` lists is on the board and blank. */
  lemma MovesAreFree(g: Game)
    requires |g.board| == 9
    ensures FreeSquares(g, AvailableMoves(g.board))
  {
    var moves := AvailableMoves(g.board);
    forall k | 0 <= k < |moves|
      ensures 0 <= moves[k] < 9 && g.board[moves[k]] == Blank
    {
      assert moves[k] in moves;
    }
  }

  predicate FreeSquares(g: Game, moves: seq<int>)
    requires |g.board| == 9
  {
    forall k :: 0 <= k < |moves| ==> 0 <= moves[k] < 9 && g.board[moves[k]] == Blank
  }

  /** The score of the child reached by `player` taking the free square `m`. */
  function ChildScore(g: Game, player: char, ai: char, m: int): (s: int)
    requires |g.board| == 9 && player != Blank && 0 <= m < 9 && g.board[m] == Blank
    decreases NumEmptySquares(g.board), 0, 0
    ensures -10 <= s <= 10
  {
    BestOutcome(AfterMove(g, m, player), Other(player), ai).score
  }

  /**
   * The answer the loop of minimax holds after trying its first `i` moves:
   * a child score replaces the answer when it is strictly better for
   * `player` (`>` for the AI, `<` for its opponent).
   */
  function ScanMoves(g: Game, player: char, ai: char, moves: seq<int>, i: int): (r: Outcome)
    requires |g.board| == 9 && player != Blank && FreeSquares(g, moves) && 0 <= i <= |moves|
    decreases NumEmptySquares(g.board), 0, i + 1
    ensures i == 0 ==> r == Sentinel(player == ai)
    ensures i > 0 ==> r.position.Some? && r.position.value in moves[..i] && -10 <= r.score <= 10
  {
    if i == 0 then Sentinel(player == ai)
    else
      var best := ScanMoves(g, player, ai, moves, i - 1);
      var s := ChildScore(g, player, ai, moves[i - 1]);
      if Improves(player == ai, s, best.score) then Outcome(Some(moves[i - 1]), s) else best
  }

  /** One more move of the loop: its child score replaces the answer when strictly better. */
  lemma ScanMovesStep(g: Game, player: char, ai: char, moves: seq<int>, i: int, s: int)
    requires |g.board| == 9 && player != Blank && FreeSquares(g, moves) && 0 <= i < |moves|
    requires s == ChildScore(g, player, ai, moves[i])
    ensures ScanMoves(g, player, ai, moves, i + 1) ==
      if Improves(player == ai, s, ScanMoves(g, player, ai, moves, i).score) then Outcome(Some(moves[i]), s)
      else ScanMoves(g, player, ai, moves, i)
  {
  }

  /**
   * The loop of minimax before its first move holds the sentinel, and
   * from then on a real answer: a square with a score in [-10, 10].
   */
  predicate Started(maximize: bool, i: int, best: Outcome)
  {
    if i == 0 then best == Sentinel(maximize) else best.position.Some? && -10 <= best.score <= 10
  }

  /** The first child score always beats the sentinel, and later ones keep a real answer. */
  lemma StartedStep(maximize: bool, i: int, best: Outcome, m: int, s: int)
    requires 0 <= i && Started(maximize, i, best) && -10 <= s <= 10
    ensures Started(maximize, i + 1, if Improves(maximize, s, best.score) then Outcome(Some(m), s) else best)
  {
  }

  /** The child score of each of `moves`, in order. */
  function ChildScores(g: Game, player: char, ai: char, moves: seq<int>): (scores: seq<int>)
    requires |g.board| == 9 && player != Blank && FreeSquares(g, moves)
    decreases NumEmptySquares(g.board), 0, |moves| + 1
    ensures |scores| == |moves|
    ensures forall j :: 0 <= j < |moves| ==> scores[j] == ChildScore(g, player, ai, moves[j])
  {
    if moves == [] then []
    else [ChildScore(g, player, ai, moves[0])] + ChildScores(g, player, ai, moves[1..])
  }

  /** Every score lies in [-10, 10], well inside the sentinels. */
  predicate RealScores(scores: seq<int>)
  {
    forall j :: 0 <= j < |scores| ==> -10 <= scores[j] <= 10
  }

  /** The same loop over scores given up front, free of the game tree below each move. */
  function Scan(maximize: bool, moves: seq<int>, scores: seq<int>, i: int): (r: Outcome)
    requires |scores| == |moves| && RealScores(scores) && 0 <= i <= |moves|
    ensures i == 0 ==> r == Sentinel(maximize)
    ensures i > 0 ==> r.position.Some? && r.position.value in moves[..i] && -10 <= r.score <= 10
  {
    if i == 0 then Sentinel(maximize)
    else
      var best := Scan(maximize, moves, scores, i - 1);
      if Improves(maximize, scores[i - 1], best.score) then Outcome(Some(moves[i - 1]), scores[i - 1]) else best
  }

  /**
   * After `i > 0` moves the loop holds the move at some index `k < i` with
   * its score; no score up to `i` beats it and every score before `k` is
   * strictly worse, so `k` is the first move reaching the best score.
   */
  lemma {:induction false} ScanIsFirstBest(maximize: bool, moves: seq<int>, scores: seq<int>, i: int) returns (k: int)
    requires |scores| == |moves| && RealScores(scores) && 0 < i <= |moves|
    ensures 0 <= k < i
    ensures Scan(maximize, moves, scores, i) == Outcome(Some(moves[k]), scores[k])
    ensures forall j :: 0 <= j < i ==> !Improves(maximize, scores[j], Scan(maximize, moves, scores, i).score)
    ensures forall j :: 0 <= j < k ==> Improves(maximize, Scan(maximize, moves, scores, i).score, scores[j])
    decreases i
  {
    if i == 1 {
      k := 0;
      return;
    }
    var k' := ScanIsFirstBest(maximize, moves, scores, i - 1);
    var prev := Scan(maximize, moves, scores, i - 1);
    if Improves(maximize, scores[i - 1], prev.score) {
      k := i - 1;
    } else {
      k := k';
    }
  }

  /** Scanning the moves of the game is scanning their child scores. */
  lemma {:induction false} ScanMovesIsScan(g: Game, player: char, ai: char, moves: seq<int>, i: int)
    requires |g.board| == 9 && player != Blank && FreeSquares(g, moves) && 0 <= i <= |moves|
    ensures ScanMoves(g, player, ai, moves, i) == Scan(player == ai, moves, ChildScores(g, player, ai, moves), i)
    decreases i
  {
    if i > 0 {
      ScanMovesIsScan(g, player, ai, moves, i - 1);
    }
  }

  /**
   * Away from the end of a game minimax plays a free square whose child
   * score no other free square beats (highest for the AI, lowest for its
   * opponent), and the first such square in increasing order.
   */
  lemma MinimaxPicksFirstBest(g: Game, player: char, ai: char) returns (k: int)
    requires |g.board| == 9 && player != Blank
    requires g.currentWinner != Some(Other(player)) && EmptySquares(g.board)
    ensures var moves := AvailableMoves(g.board);
      && FreeSquares(g, moves)
      && 0 <= k < |moves|
      && BestOutcome(g, player, ai) == Outcome(Some(moves[k]), ChildScore(g, player, ai, moves[k]))
      && (forall j :: 0 <= j < |moves| ==>
            !Improves(player == ai, ChildScore(g, player, ai, moves[j]), BestOutcome(g, player, ai).score))
      && (forall j :: 0 <= j < k ==>
            Improves(player == ai, BestOutcome(g, player, ai).score, ChildScore(g, player, ai, moves[j])))
  {
    var moves := AvailableMoves(g.board);
    MovesAreFree(g);
    CountPositive(g.board, Blank);
    var scores := ChildScores(g, player, ai, moves);
    k := ScanIsFirstBest(player == ai, moves, scores, |moves|);
    ScanMovesIsScan(g, player, ai, moves, |moves|);
    var r := BestOutcome(g, player, ai);
    assert r == Scan(player == ai, moves, scores, |moves|);
    forall j | 0 <= j < |moves|
      ensures !Improves(player == ai, ChildScore(g, player, ai, moves[j]), r.score)
    {
      assert scores[j] == ChildScore(g, player, ai, moves[j]);
    }
    forall j | 0 <= j < k
      ensures Improves(player == ai, r.score, ChildScore(g, player, ai, moves[j]))
    {
      assert scores[j] == ChildScore(g, player, ai, moves[j]);
    }
  }

  // ---------------------------------------------------------------------
  // Positions reached by alternate play
  // ---------------------------------------------------------------------

  /** Whose turn it is when X moves first and the players alternate. */
  function ToMove(b: seq<char>): char
  {
    if Count(b, 'X') == Count(b, 'O') then 'X' else 'O'
  }

  /** The winner a board shows, if any. */
  function LineWinner(b: seq<char>): Option<char>
    requires |b| == 9
  {
    if HasLine(b, 'X') then Some('X') else if HasLine(b, 'O') then Some('O') else None
  }

  /**
   * A position of alternate play from the empty board, X first: X has as
   * many marks as O or one more, only the player who moved last may own a
   * line, and the recorded winner is the one the board shows.
   */
  ghost predicate Consistent(g: Game)
  {
    && |g.board| == 9
    && (forall i :: 0 <= i < 9 ==> g.board[i] == Blank || IsLetter(g.board[i]))
    && (Count(g.board, 'X') == Count(g.board, 'O') || Count(g.board, 'X') == Count(g.board, 'O') + 1)
    && (HasLine(g.board, 'X') ==> ToMove(g.board) == 'O')
    && (HasLine(g.board, 'O') ==> ToMove(g.board) == 'X')
    && g.currentWinner == LineWinner(g.board)
  }

  /** A line on the board after a move is an old line or one that `winner` reports for the mover. */
  lemma LineAfterMove(b: seq<char>, square: int, p: char, q: char)
    requires |b| == 9 && 0 <= square < 9 && HasLine(b[square := p], q)
    ensures HasLine(b, q) || (q == p && Winner(b[square := p], square, p))
  {
    var b' := b[square := p];
    var i :| 0 <= i < 8 && Owns(b', i, q);
    if square in Line(i) {
      assert b'[square] == q;
      WinnerComplete(b', square, q, i);
    } else {
      assert Owns(b, i, q);
    }
  }

  /** The player to move, moving on a free square of an unfinished position, reaches another such position. */
  lemma MovePreservesConsistent(g: Game, square: int)
    requires Consistent(g) && g.currentWinner == None && 0 <= square < 9 && g.board[square] == Blank
    ensures Consistent(AfterMove(g, square, ToMove(g.board)))
    ensures ToMove(AfterMove(g, square, ToMove(g.board)).board) == Other(ToMove(g.board))
  {
    var p := ToMove(g.board);
    var b := g.board;
    var b' := b[square := p];
    CountUpdate(b, square, p, 'X');
    CountUpdate(b, square, p, 'O');
    if HasLine(b', 'X') {
      LineAfterMove(b, square, p, 'X');
    }
    if HasLine(b', 'O') {
      LineAfterMove(b, square, p, 'O');
    }
    if Winner(b', square, p) {
      WinnerSound(b', square, p);
    }
  }

  // ---------------------------------------------------------------------
  // The AI player
  // ---------------------------------------------------------------------

  /** Every memoised answer is the minimax answer of its position, with the player to move there. */
  ghost predicate MemoSound(memo: map<string, Outcome>, ai: char)
  {
    forall key :: key in memo ==>
      && |key| == 9
      && Consistent(Game(key, LineWinner(key)))
      && memo[key] == BestOutcome(Game(key, LineWinner(key)), ToMove(key), ai)
  }

  /** In a position of alternate play still open for `ToMove`, each of its moves leads to another such position. */
  lemma ChildConsistent(g: Game, moves: seq<int>, i: int)
    requires Consistent(g) && g.currentWinner != Some(Other(ToMove(g.board)))
    requires moves == AvailableMoves(g.board) && 0 <= i < |moves|
    ensures Consistent(AfterMove(g, moves[i], ToMove(g.board)))
    ensures ToMove(AfterMove(g, moves[i], ToMove(g.board)).board) == Other(ToMove(g.board))
  {
    assert moves[i] in moves;
    MovePreservesConsistent(g, moves[i]);
  }

  /** A memo hit on a position of alternate play is that position's minimax answer. */
  lemma MemoHit(memo: map<string, Outcome>, ai: char, g: Game)
    requires MemoSound(memo, ai) && Consistent(g) && BoardToKey(g.board) in memo
    ensures memo[BoardToKey(g.board)] == BestOutcome(g, ToMove(g.board), ai)
  {
    assert Game(g.board, LineWinner(g.board)) == g;
  }

  /** Memoising the minimax answer of a position of alternate play keeps the memo sound. */
  lemma MemoSoundInsert(memo: map<string, Outcome>, ai: char, g: Game, best: Outcome)
    requires MemoSound(memo, ai) && Consistent(g)
    requires best == BestOutcome(g, ToMove(g.board), ai)
    ensures MemoSound(memo[BoardToKey(g.board) := best], ai)
  {
    assert Game(g.board, LineWinner(g.board)) == g;
  }

  /**
   * What `minimax` ever stores: an answer naming a free square of the
   * board its key spells, with a score in [-10, 10].
   */
  ghost predicate MemoWellFormed(memo: map<string, Outcome>)
  {
    forall key :: key in memo ==>
      && memo[key].position.Some?
      && 0 <= memo[key].position.value < |key| && key[memo[key].position.value] == Blank
      && -10 <= memo[key].score <= 10
  }

  /** Memoising an answer of that shape for a board keeps the memo well formed. */
  lemma MemoWellFormedInsert(memo: map<string, Outcome>, b: seq<char>, best: Outcome)
    requires MemoWellFormed(memo)
    requires best.position.Some? && 0 <= best.position.value < |b| && b[best.position.value] == Blank
    requires -10 <= best.score <= 10
    ensures MemoWellFormed(memo[BoardToKey(b) := best])
  {
  }

  class AIPlayer {
    const letter: char
    var memo: map<string, Outcome>

    ghost predicate Valid()
      reads this
    {
      MemoWellFormed(memo)
    }

    constructor (letter: char)
      ensures this.letter == letter && memo == map[] && Valid()
    {
      this.letter := letter;
      memo := map[];
    }

    /**
     * `minimax(game, player)`: a memo hit is returned whoever `player` is;
     * old entries are never changed; and on a position of alternate play
     * with a sound memo the answer is `BestOutcome` and the memo stays sound.
     */
    method Minimax(g: Game, player: char) returns (r: Outcome)
      requires Valid() && |g.board| == 9 && player != Blank
      modifies this
      decreases NumEmptySquares(g.board), 1
      ensures Valid()
      ensures r.position.Some? ==> 0 <= r.position.value < 9 && g.board[r.position.value] == Blank
      ensures -10 <= r.score <= 10
      ensures r.position.None? <==>
        BoardToKey(g.board) !in old(memo) && (g.currentWinner == Some(Other(player)) || !EmptySquares(g.board))
      ensures BoardToKey(g.board) in old(memo) ==> r == old(memo)[BoardToKey(g.board)] && memo == old(memo)
      ensures BoardToKey(g.board) !in old(memo) ==>
        if g.currentWinner == Some(Other(player)) || !EmptySquares(g.board) then memo == old(memo)
        else BoardToKey(g.board) in memo && memo[BoardToKey(g.board)] == r
      ensures BoardToKey(g.board) !in old(memo) && (g.currentWinner == Some(Other(player)) || !EmptySquares(g.board)) ==>
        r == BestOutcome(g, player, letter)
      ensures forall key :: key in old(memo) ==> key in memo && memo[key] == old(memo)[key]
      ensures MemoSound(old(memo), letter) && Consistent(g) && player == ToMove(g.board) ==>
        MemoSound(memo, letter) && r == BestOutcome(g, player, letter)
    {
      var key := BoardToKey(g.board);
      if key in memo {
        if MemoSound(memo, letter) && Consistent(g) {
          MemoHit(memo, letter, g);
        }
        return memo[key];
      }

      var maxPlayer := letter;
      var otherPlayer := Other(player);

      if g.currentWinner == Some(otherPlayer) {
        var e: int := NumEmptySquares(g.board);
        return Outcome(None, if otherPlayer == maxPlayer then 1 * (e + 1) else -1 * (e + 1));
      }

      if !EmptySquares(g.board) {
        return Outcome(None, 0);
      }

      ghost var sound := MemoSound(memo, letter) && Consistent(g) && player == ToMove(g.board);
      var best := BestMove(g, player);
      if sound {
        MemoSoundInsert(memo, letter, g, best);
      }
      MemoWellFormedInsert(memo, g.board, best);
      memo := memo[key := best];
      r := best;
    }

    /**
     * The `for move in game.available_moves()` loop of `minimax`: each
     * free square is tried in increasing order on a copy of the game, and
     * its child score replaces the best answer when strictly better for
     * `player` (`>` for the AI, `<` for its opponent).
     */
    method BestMove(g: Game, player: char) returns (best: Outcome)
      requires Valid() && |g.board| == 9 && player != Blank
      requires g.currentWinner != Some(Other(player)) && EmptySquares(g.board)
      modifies this
      decreases NumEmptySquares(g.board), 0
      ensures Valid()
      ensures best.position.Some? && 0 <= best.position.value < 9 && g.board[best.position.value] == Blank
      ensures -10 <= best.score <= 10
      ensures forall key :: key in old(memo) ==> key in memo && memo[key] == old(memo)[key]
      ensures MemoSound(old(memo), letter) && Consistent(g) && player == ToMove(g.board) ==>
        MemoSound(memo, letter) && best == BestOutcome(g, player, letter)
    {
      var maxPlayer := letter;
      var otherPlayer := Other(player);
      best := if player == maxPlayer then Outcome(None, NegInf) else Outcome(None, PosInf);
      var moves := AvailableMoves(g.board);
      ghost var sound := MemoSound(memo, letter) && Consistent(g) && player == ToMove(g.board);
      MovesAreFree(g);

      for i := 0 to |moves|
        invariant Valid()
        invariant best.position.Some? ==> 0 <= best.position.value < 9 && g.board[best.position.value] == Blank
        invariant Started(player == maxPlayer, i, best)
        invariant forall k :: k in old(memo) ==> k in memo && memo[k] == old(memo)[k]
        invariant sound ==> MemoSound(memo, letter) && best == ScanMoves(g, player, letter, moves, i)
      {
        var move := moves[i];
        var score := TryMove(g, player, moves, i);
        var simScore := Outcome(Some(move), score);
        StartedStep(player == maxPlayer, i, best, move, score);
        if sound {
          ScanMovesStep(g, player, letter, moves, i, score);
        }
        if Improves(player == maxPlayer, simScore.score, best.score) {
          best := simScore;
        }
      }
      CountPositive(g.board, Blank);
      if sound {
        assert best == BestOutcome(g, player, letter);
      }
    }

    /**
     * One pass of the loop of `minimax` up to the recursive call: the move
     * is played on a copy of the game and minimax is asked for the other
     * player. The child's score lies in [-10, 10]; on a position of
     * alternate play with a sound memo it is the move's child score under
     * `BestOutcome`, and the memo stays sound.
     */
    method TryMove(g: Game, player: char, moves: seq<int>, i: int) returns (score: int)
      requires Valid() && |g.board| == 9 && player != Blank
      requires g.currentWinner != Some(Other(player)) && moves == AvailableMoves(g.board) && 0 <= i < |moves|
      modifies this
      decreases NumEmptySquares(g.board) - 1, 2
      ensures Valid() && -10 <= score <= 10
      ensures forall key :: key in old(memo) ==> key in memo && memo[key] == old(memo)[key]
      ensures 0 <= moves[i] < 9 && g.board[moves[i]] == Blank
      ensures var child := AfterMove(g, moves[i], player);
        BoardToKey(child.board) in old(memo) ==> score == old(memo)[BoardToKey(child.board)].score
      ensures var child := AfterMove(g, moves[i], player);
        var finished := child.currentWinner == Some(Other(Other(player))) || !EmptySquares(child.board);
        BoardToKey(child.board) !in old(memo) && finished ==> score == ChildScore(g, player, letter, moves[i])
      ensures MemoSound(old(memo), letter) && Consistent(g) && player == ToMove(g.board) ==>
        MemoSound(memo, letter) && score == ChildScore(g, player, letter, moves[i])
    {
      MovesAreFree(g);
      var tempGame := AfterMove(g, moves[i], player);
      if MemoSound(memo, letter) && Consistent(g) && player == ToMove(g.board) {
        ChildConsistent(g, moves, i);
      }
      var simResult := Minimax(tempGame, Other(player));
      score := simResult.score;
    }

    /**
     * `get_move`: a random free square on an empty board, otherwise the square
     * minimax picks, or a random free square when minimax picks none.
     */
    method GetMove(game: TicTacToe) returns (square: int)
      requires Valid() && |game.board| == 9 && EmptySquares(game.board) && letter != Blank
      modifies this
      ensures Valid()
      ensures square in AvailableMoves(game.board)
      ensures forall key :: key in old(memo) ==> key in memo && memo[key] == old(memo)[key]
      ensures MemoSound(old(memo), letter) && Consistent(game.State()) && letter == ToMove(game.board) ==>
        MemoSound(memo, letter)
      ensures NumEmptySquares(game.board) != 9 && game.currentWinner != Some(Other(letter)) ==>
        BoardToKey(game.board) in memo && memo[BoardToKey(game.board)].position == Some(square)
      ensures (&& NumEmptySquares(game.board) != 9 && MemoSound(old(memo), letter)
               && Consistent(game.State()) && letter == ToMove(game.board)
               && BestOutcome(game.State(), letter, letter).position.Some?) ==>
        square == BestOutcome(game.State(), letter, letter).position.value
    {
      var moves := AvailableMoves(game.board);
      CountPositive(game.board, Blank);
      if |moves| == 9 {
        square :| square in moves;
        return;
      }
      var result := Minimax(game.State(), letter);
      var move := result.position;
      if move.Some? {
        square := move.value;
      } else {
        square :| square in moves;
      }
    }
  }

  // ---------------------------------------------------------------------
  // A whole game
  // ---------------------------------------------------------------------

  /** How `play` ends: the winning letter or `None`, the final game, and the squares not asked for. */
  datatype Finish = Finish(winner: Option<char>, game: Game, rest: seq<int>)

  predicate ValidSquares(squares: seq<int>)
  {
    forall k :: 0 <= k < |squares| ==> 0 <= squares[k] < 9
  }

  /**
   * `play` with `print_game=False`: the squares the two players hand in, in
   * turn, are `squares`; X starts, a refused square is asked for again from
   * the same letter, and the first move after which a winner is recorded ends
   * the game.
   */
  function PlayOut(g: Game, letter: char, squares: seq<int>): (f: Finish)
    requires |g.board| == 9 && ValidSquares(squares)
    decreases |squares|
  {
    if !EmptySquares(g.board) || squares == [] then Finish(None, g, squares)
    else
      var square := squares[0];
      if g.board[square] == Blank then
        var g' := AfterMove(g, square, letter);
        if g'.currentWinner.Some? then Finish(Some(letter), g', squares[1..])
        else PlayOut(g', Other(letter), squares[1..])
      else
        PlayOut(g, letter, squares[1..])
  }

  method Play(game: TicTacToe, squares: seq<int>) returns (winner: Option<char>)
    requires |game.board| == 9 && ValidSquares(squares)
    modifies game
    ensures winner == PlayOut(old(game.State()), 'X', squares).winner
    ensures game.State() == PlayOut(old(game.State()), 'X', squares).game
  {
    var letter := 'X';
    var i := 0;
    while EmptySquares(game.board) && i < |squares|
      invariant 0 <= i <= |squares| && |game.board| == 9
      invariant PlayOut(old(game.State()), 'X', squares) == PlayOut(game.State(), letter, squares[i..])
      decreases |squares| - i
    {
      var square := squares[i];
      assert squares[i..][1..] == squares[i + 1..];
      i := i + 1;
      var ok := game.MakeMove(square, letter);
      if ok {
        if game.currentWinner.Some? {
          return Some(letter);
        }
        letter := Other(letter);
      }
    }
    return None;
  }

  /**
   * From an unfinished position of alternate play with the right letter to
   * move, `play` names a winner only when that letter owns a line, and a tie
   * only on a board where nobody owns one and that is full (or when the
   * players stop handing in squares).
   */
  lemma {:induction false} PlayOutResult(g: Game, letter: char, squares: seq<int>)
    requires Consistent(g) && g.currentWinner == None && letter == ToMove(g.board) && ValidSquares(squares)
    ensures var f := PlayOut(g, letter, squares);
      && Consistent(f.game)
      && (f.winner.Some? ==> IsLetter(f.winner.value) && HasLine(f.game.board, f.winner.value)
                              && f.game.currentWinner == f.winner)
      && (f.winner.None? ==> f.game.currentWinner == None && !HasLine(f.game.board, 'X') && !HasLine(f.game.board, 'O')
                              && (f.rest == [] || !EmptySquares(f.game.board)))
    decreases |squares|
  {
    if EmptySquares(g.board) && squares != [] {
      var square := squares[0];
      if g.board[square] == Blank {
        MovePreservesConsistent(g, square);
        var g' := AfterMove(g, square, letter);
        if g'.currentWinner.None? {
          PlayOutResult(g', Other(letter), squares[1..]);
        }
      } else {
        PlayOutResult(g, letter, squares[1..]);
      }
    }
  }

  /** A new game is a position of alternate play with X to move and no winner. */
  lemma NewGameConsistent(b: seq<char>)
    requires |b| == 9 && forall i :: 0 <= i < 9 ==> b[i] == Blank
    ensures Consistent(Game(b, None)) && ToMove(b) == 'X'
  {
    CountAbsent(b, 'X');
    CountAbsent(b, 'O');
    assert !HasLine(b, 'X') && !HasLine(b, 'O');
  }

  // ---------------------------------------------------------------------
  // Counting lemmas
  // ---------------------------------------------------------------------

  lemma {:induction false} CountUpdate(b: seq<char>, i: int, x: char, c: char)
    requires 0 <= i < |b|
    ensures Count(b[i := x], c) == Count(b, c) - (if b[i] == c then 1 else 0) + (if x == c then 1 else 0)
  {
    if i > 0 {
      CountUpdate(b[1..], i - 1, x, c);
      assert b[i := x][1..] == b[1..][i - 1 := x];
    } else {
      assert b[i := x][1..] == b[1..];
    }
  }

  lemma {:induction false} CountPositive(b: seq<char>, c: char)
    ensures c in b <==> Count(b, c) > 0
  {
    if b != [] {
      CountPositive(b[1..], c);
      assert b == [b[0]] + b[1..];
    }
  }

  lemma {:induction false} CountAbsent(b: seq<char>, c: char)
    requires forall i :: 0 <= i < |b| ==> b[i] != c
    ensures Count(b, c) == 0
  {
    if b != [] {
      CountAbsent(b[1..], c);
    }
  }

  lemma {:induction false} MovesFromCount(b: seq<char>, i: nat)
    requires i <= |b|
    ensures |MovesFrom(b, i)| == Count(b[i..], Blank)
    decreases |b| - i
  {
    if i < |b| {
      MovesFromCount(b, i + 1);
      assert b[i..][1..] == b[i + 1..];
    }
  }

  /** `empty_squares` holds exactly when `num_empty_squares` is positive. */
  lemma EmptySquaresIffCount(b: seq<char>)
    ensures EmptySquares(b) <==> NumEmptySquares(b) > 0
    ensures |AvailableMoves(b)| == NumEmptySquares(b)
  {
    CountPositive(b, Blank);
  }
}
