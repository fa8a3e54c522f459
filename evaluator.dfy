/**
 * The functions of src/evaluator.rs over a `Connect4` object: the read-only
 * evaluation (`evaluate_board`, `better_evaluate`) and the search
 * (`alpha_beta_pruning`, `find_best_move`), which plays and undoes trial
 * moves on the board itself.
 */
module Evaluator {
  import opened Rules
  import opened Heuristic
  import opened Search
  import opened Game

  /**
   * `evaluate_board`: +100 / -100 when a winner is reported, scaled by the
   * turn multiplier (1 for Red to move, -1 for Yellow), else `better_evaluate`.
   * Its two loops return on their first iteration, so they are not repeated here.
   */
  method EvaluateBoard(game: Connect4) returns (score: int)
    requires game.Consistent()
    ensures score == StaticScore(game.Pos())
  {
    var turnMulti := if game.GetTurn() == Player.Red then 1 else -1;
    var winner := game.IsSomeoneWinning();
    if winner.Some? {
      return if winner.value == Player.Red then 100 * turnMulti else -100 * turnMulti;
    }
    score := BetterEvaluate(game);
  }

  /** `better_evaluate`: rows, then columns, then the diagonal windows. */
  method BetterEvaluate(game: Connect4) returns (score: int)
    requires game.Consistent()
    ensures score == LinePotential(game.Pos())
  {
    var turn := game.GetTurn();
    var opponent := turn.Other();
    var rows := RowPotentials(game, turn, opponent);
    var columns := ColumnPotentials(game, turn, opponent);
    var diagonals := DiagonalPotentials(game, turn, opponent);
    score := rows + columns + diagonals;
  }

  /** The first loop of `better_evaluate`: the potentials of the rows. */
  method RowPotentials(game: Connect4, turn: Player, opponent: Player) returns (score: int)
    requires game.Consistent() && opponent == turn.Other()
    ensures score == RowsScore(game.cells, turn, Height)
  {
    score := 0;
    var i := 0;
    while i < game.size.height
      invariant 0 <= i <= Height
      invariant score == RowsScore(game.cells, turn, i)
    {
      var count := RowPotential(game, turn, opponent, i);
      score := score + count;
      i := i + 1;
    }
  }

  /** The inner loop of the row pass: row i, left to right, stopped by an opponent stone. */
  method RowPotential(game: Connect4, turn: Player, opponent: Player, i: int) returns (count: int)
    requires game.Consistent() && opponent == turn.Other() && 0 <= i < Height
    ensures count == Potential(game.cells[i], turn)
  {
    ghost var line := game.cells[i];
    count := 0;
    var j := 0;
    while j < game.size.width
      invariant Scanned(line, turn, j, count)
    {
      if game.GetCell(i, j) == Some(turn) {
        ScanStep(line, turn, j, count);
        count := count + 1;
      } else if game.GetCell(i, j) == Some(opponent) {
        ScanBlocked(line, turn, j);
        count := 0;
        return;
      } else {
        ScanStep(line, turn, j, count);
      }
      j := j + 1;
    }
    ScanComplete(line, turn, count);
  }

  /** The second loop of `better_evaluate`: the potentials of the columns. */
  method ColumnPotentials(game: Connect4, turn: Player, opponent: Player) returns (score: int)
    requires game.Consistent() && opponent == turn.Other()
    ensures score == ColumnsScore(game.cells, turn, Width)
  {
    score := 0;
    var j := 0;
    while j < game.size.width
      invariant 0 <= j <= Width
      invariant score == ColumnsScore(game.cells, turn, j)
    {
      var count := ColumnPotential(game, turn, opponent, j);
      assert ColumnsScore(game.cells, turn, j + 1) == ColumnsScore(game.cells, turn, j) + count;
      score := score + count;
      j := j + 1;
    }
  }

  /** The inner loop of the column pass: column j, bottom to top, stopped by an opponent stone. */
  method ColumnPotential(game: Connect4, turn: Player, opponent: Player, j: int) returns (count: int)
    requires game.Consistent() && opponent == turn.Other() && 0 <= j < Width
    ensures count == Potential(Column(game.cells, j), turn)
  {
    ghost var line := Column(game.cells, j);
    count := 0;
    var i := 0;
    while i < game.size.height
      invariant Scanned(line, turn, i, count)
    {
      if game.GetCell(i, j) == Some(turn) {
        ScanStep(line, turn, i, count);
        count := count + 1;
      } else if game.GetCell(i, j) == Some(opponent) {
        ScanBlocked(line, turn, i);
        count := 0;
        return;
      } else {
        ScanStep(line, turn, i, count);
      }
      i := i + 1;
    }
    ScanComplete(line, turn, count);
  }

  /** The third loop of `better_evaluate`: the diagonal windows, row by row. */
  method DiagonalPotentials(game: Connect4, turn: Player, opponent: Player) returns (score: int)
    requires game.Consistent() && opponent == turn.Other()
    ensures score == DiagonalsScore(game.cells, turn, Height)
  {
    score := 0;
    var i := 0;
    while i < game.size.height
      invariant 0 <= i <= Height
      invariant score == DiagonalsScore(game.cells, turn, i)
    {
      var rowScore := RowDiagonalPotentials(game, turn, opponent, i);
      assert DiagonalsScore(game.cells, turn, i + 1) == DiagonalsScore(game.cells, turn, i) + rowScore;
      score := score + rowScore;
      i := i + 1;
    }
  }

  /**
   * One row of the diagonal pass: for each cell (i, j), the up-right window
   * when it fits on the board, then the up-left window when it fits.
   */
  method RowDiagonalPotentials(game: Connect4, turn: Player, opponent: Player, i: int) returns (score: int)
    requires game.Consistent() && opponent == turn.Other() && 0 <= i < Height
    ensures score == RowDiagonals(game.cells, turn, i, Width)
  {
    score := 0;
    var j := 0;
    while j < game.size.width
      invariant 0 <= j <= Width
      invariant score == RowDiagonals(game.cells, turn, i, j)
    {
      var upRight := 0;
      if i + 3 < game.size.height && j + 3 < game.size.width {
        upRight := UpRightPotential(game, turn, opponent, i, j);
      }
      var upLeft := 0;
      if i + 3 < game.size.height && j >= 3 {
        upLeft := UpLeftPotential(game, turn, opponent, i, j);
      }
      RowDiagonalsNext(game.cells, turn, i, j);
      score := score + upRight + upLeft;
      j := j + 1;
    }
  }

  /** The first `for k in 0..4` loop of the diagonal pass: the window (i + k, j + k). */
  method UpRightPotential(game: Connect4, turn: Player, opponent: Player, i: int, j: int)
    returns (count: int)
    requires game.Consistent() && opponent == turn.Other()
    requires 0 <= i && i + 3 < Height && 0 <= j && j + 3 < Width
    ensures count == Potential(UpRight(game.cells, i, j), turn)
  {
    ghost var line := UpRight(game.cells, i, j);
    count := 0;
    var k := 0;
    while k < 4
      invariant Scanned(line, turn, k, count)
    {
      assert line[k] == game.cells[i + k][j + k];
      if game.GetCell(i + k, j + k) == Some(turn) {
        ScanStep(line, turn, k, count);
        count := count + 1;
      } else if game.GetCell(i + k, j + k) == Some(opponent) {
        ScanBlocked(line, turn, k);
        count := 0;
        return;
      } else {
        ScanStep(line, turn, k, count);
      }
      k := k + 1;
    }
    ScanComplete(line, turn, count);
  }

  /** The second `for k in 0..4` loop of the diagonal pass: the window (i + k, j - k). */
  method UpLeftPotential(game: Connect4, turn: Player, opponent: Player, i: int, j: int)
    returns (count: int)
    requires game.Consistent() && opponent == turn.Other()
    requires 0 <= i && i + 3 < Height && 3 <= j < Width
    ensures count == Potential(UpLeft(game.cells, i, j), turn)
  {
    ghost var line := UpLeft(game.cells, i, j);
    count := 0;
    var k := 0;
    while k < 4
      invariant Scanned(line, turn, k, count)
    {
      assert line[k] == game.cells[i + k][j - k];
      if game.GetCell(i + k, j - k) == Some(turn) {
        ScanStep(line, turn, k, count);
        count := count + 1;
      } else if game.GetCell(i + k, j - k) == Some(opponent) {
        ScanBlocked(line, turn, k);
        count := 0;
        return;
      } else {
        ScanStep(line, turn, k, count);
      }
      k := k + 1;
    }
    ScanComplete(line, turn, count);
  }

  /**
   * `alpha_beta_pruning`: fail-hard negamax with alpha-beta pruning over the
   * columns 0 .. width-1. At a leaf (depth 0, or a score of +100 or -100) it
   * returns the static score; elsewhere, for any window alpha < beta, it
   * returns the plain negamax value clamped to [alpha, beta]. The board, the
   * turn and the history are as they were. It terminates for any depth,
   * negative ones included, because every level fills one more cell.
   */
  method AlphaBetaPruning(game: Connect4, depth: int, alpha: int, beta: int) returns (r: int)
    requires game.Valid() && alpha < beta
    modifies game, game.board
    decreases EmptyCount(game.cells), 3
    ensures game.Valid()
    ensures game.Pos() == old(game.Pos()) && game.history == old(game.history)
    ensures r == SearchValue(game.Pos(), depth, alpha, beta)
  {
    var score := EvaluateBoard(game);
    if depth == 0 || score == 100 || score == -100 {
      return score;
    }
    r := SearchColumns(game, depth, alpha, beta);
  }

  /**
   * The column loop of `alpha_beta_pruning`: every playable column in turn,
   * raising alpha to each better value and returning beta as soon as a value
   * reaches it, alpha after the last column. The result is the best negated
   * child value clamped to [alpha, beta], which is the node's negamax value
   * clamped when the node is not a leaf.
   */
  method SearchColumns(game: Connect4, depth: int, alpha: int, beta: int) returns (r: int)
    requires game.Valid() && alpha < beta
    modifies game, game.board
    decreases EmptyCount(game.cells), 2
    ensures game.Valid()
    ensures game.Pos() == old(game.Pos()) && game.history == old(game.history)
    ensures r == Clamp(BestOfColumns(game.Pos(), depth, Width), alpha, beta)
  {
    ghost var p := game.Pos();
    TracksInitially(p, depth, alpha, beta);
    var a := alpha;
    var i := 0;
    while i < game.size.width
      invariant 0 <= i <= Width
      invariant game.Valid() && game.Pos() == p && game.history == old(game.history)
      invariant Tracks(BestOfColumns(p, depth, i), alpha, beta, a)
    {
      var cut, next := ColumnStep(game, depth, i, alpha, beta, a);
      if cut {
        return beta;
      }
      a := next;
      i := i + 1;
    }
    assert i == Width;
    ExhaustedValue(p, depth, alpha, beta, a);
    return a;
  }

  /**
   * The loop body of `alpha_beta_pruning` for column i, with `a` the current
   * alpha: a cutoff when the column's value reaches beta, which fixes the
   * node's clamped value at beta, and otherwise the
   * next alpha, max(a, value), which tracks the best value over the columns
   * up to and including i.
   */
  method ColumnStep(game: Connect4, depth: int, i: int, alpha: int, beta: int, a: int)
    returns (cut: bool, next: int)
    requires game.Valid() && 0 <= i < Width
    requires Tracks(BestOfColumns(game.Pos(), depth, i), alpha, beta, a)
    modifies game, game.board
    decreases EmptyCount(game.cells), 1
    ensures game.Valid()
    ensures game.Pos() == old(game.Pos()) && game.history == old(game.history)
    ensures cut ==> Clamp(BestOfColumns(game.Pos(), depth, Width), alpha, beta) == beta
    ensures !cut ==> Tracks(BestOfColumns(game.Pos(), depth, i + 1), alpha, beta, next)
  {
    ghost var p := game.Pos();
    var played, value := SearchColumn(game, depth, i, a, beta);
    next := a;
    if played {
      PlayedColumnStep(p, depth, i, alpha, beta, a, value);
      if value >= beta {
        CutoffValue(p, depth, i + 1, alpha, beta);
        return true, a;
      }
      if value > a {
        next := value;
      }
    } else {
      SkippedColumnStep(p, depth, i);
    }
    cut := false;
  }

  /**
   * One iteration of the column loop of `alpha_beta_pruning`: play column i,
   * search the child one level down with the negated window (-beta, -alpha),
   * undo the move. When the column is playable, the value is the negated
   * child result; the board, the turn and the history are as they were.
   */
  method SearchColumn(game: Connect4, depth: int, i: int, alpha: int, beta: int)
    returns (played: bool, value: int)
    requires game.Valid() && alpha < beta
    modifies game, game.board
    decreases EmptyCount(game.cells), 0
    ensures game.Valid()
    ensures game.Pos() == old(game.Pos()) && game.history == old(game.history)
    ensures played == Drop(game.Pos(), i).Some?
    ensures played ==> value == -SearchValue(Drop(game.Pos(), i).value, depth - 1, -beta, -alpha)
  {
    value := 0;
    ghost var p := game.Pos();
    played := game.Play(i);
    if played {
      DropCounts(p, i);
      var v := AlphaBetaPruning(game, depth - 1, -beta, -alpha);
      value := -v;
      var undone := game.Undo();
      assert game.history == old(game.history);
    }
  }

  /**
   * `find_best_move`: plays each column in turn, scores it as the negated
   * full-window search one level down, undoes it, and keeps the first column
   * whose score beats the best so far, starting from -1000. So it returns the
   * lowest-indexed playable column of maximal score when that score exceeds
   * -1000, and 8 when no column is playable or every playable column scores
   * -1000. The board, the turn and the history are as they were.
   */
  method FindBestMove(game: Connect4, depth: int) returns (bestMove: int)
    requires game.Valid()
    modifies game, game.board
    ensures game.Valid()
    ensures game.Pos() == old(game.Pos()) && game.history == old(game.history)
    ensures bestMove == NoMove <==>
      forall c :: 0 <= c < Width && Drop(game.Pos(), c).Some? ==> RootValue(game.Pos(), depth, c) <= -1000
    ensures bestMove != NoMove ==>
      && 0 <= bestMove < Width && Drop(game.Pos(), bestMove).Some?
      && (forall c :: 0 <= c < Width && Drop(game.Pos(), c).Some? ==>
            RootValue(game.Pos(), depth, c) <= RootValue(game.Pos(), depth, bestMove))
      && (forall c :: 0 <= c < bestMove && Drop(game.Pos(), c).Some? ==>
            RootValue(game.Pos(), depth, c) < RootValue(game.Pos(), depth, bestMove))
  {
    ghost var p := game.Pos();
    bestMove := NoMove;
    var bestValue := -1000;
    var i := 0;
    while i < game.size.width
      invariant 0 <= i <= Width
      invariant game.Valid() && game.Pos() == p && game.history == old(game.history)
      invariant Choice(p, depth, i, bestMove, bestValue)
    {
      var played, moveValue := SearchColumn(game, depth, i, -1000, 1000);
      ChoiceStep(p, depth, i, bestMove, bestValue);
      if played {
        assert moveValue == RootValue(p, depth, i);
        if moveValue > bestValue {
          bestMove := i;
          bestValue := moveValue;
        }
      }
      i := i + 1;
    }
    ChoiceComplete(p, depth, bestMove, bestValue);
  }
}
