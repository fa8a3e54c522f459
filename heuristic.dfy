/**
 * The static evaluation of src/evaluator.rs as functions of a position:
 * `evaluate_board` (+100 / -100 for a decided game, from the point of view of
 * the player to move) and `better_evaluate` (the line-potential count).
 */
module Heuristic {
  import opened Rules

  /**
   * What one line (a row, a column or a four-cell diagonal window) adds to
   * `better_evaluate`: the number of the mover's stones in it when it holds no
   * opponent stone, and 0 otherwise.
   */
  function Potential(line: seq<CellState>, me: Player): nat
  {
    if CellOf(me.Other()) in line then 0 else CountIn(line, CellOf(me))
  }

  /** No cell of the board holds the colour of `me`. */
  predicate NoStonesOf(g: Grid, me: Player)
  {
    forall i, j :: 0 <= i < Height && 0 <= j < Width ==> g[i][j] != CellOf(me)
  }

  /** A line without the mover's stones adds nothing. */
  lemma NoStonesNoPotential(line: seq<CellState>, me: Player)
    ensures CellOf(me) !in line ==> Potential(line, me) == 0
  {
    if CellOf(me) !in line {
      CountInAbsent(line, CellOf(me));
    }
  }

  /**
   * The state of a left-to-right scan of a line after its first k cells: no
   * opponent stone met yet, and `count` of the mover's stones seen.
   */
  predicate Scanned(line: seq<CellState>, me: Player, k: int, count: int)
  {
    0 <= k <= |line| && CellOf(me.Other()) !in line[..k] && count == CountIn(line[..k], CellOf(me))
  }

  /** A cell that is not an opponent stone extends the scan, counting it when it is the mover's. */
  lemma ScanStep(line: seq<CellState>, me: Player, k: int, count: int)
    requires Scanned(line, me, k, count) && k < |line| && line[k] != CellOf(me.Other())
    ensures Scanned(line, me, k + 1, count + Indicator(line[k] == CellOf(me)))
  {
    assert line[..k + 1] == line[..k] + [line[k]];
    assert line[..k + 1][..k] == line[..k];
  }

  /** An opponent stone anywhere in the line cancels its potential. */
  lemma ScanBlocked(line: seq<CellState>, me: Player, k: int)
    requires 0 <= k < |line| && line[k] == CellOf(me.Other())
    ensures Potential(line, me) == 0
  {
  }

  /** A scan that reaches the end of the line has counted its potential. */
  lemma ScanComplete(line: seq<CellState>, me: Player, count: int)
    requires Scanned(line, me, |line|, count)
    ensures count == Potential(line, me)
  {
    assert line[..|line|] == line;
  }

  function Column(g: Grid, j: int): (col: seq<CellState>)
    requires 0 <= j < Width
    ensures |col| == Height && forall i :: 0 <= i < Height ==> col[i] == g[i][j]
  {
    seq(Height, i requires 0 <= i < Height => g[i][j])
  }

  /** The window (i + k, j + k), k < 4. */
  function UpRight(g: Grid, i: int, j: int): seq<CellState>
    requires 0 <= i && i + 3 < Height && 0 <= j && j + 3 < Width
  {
    [g[i][j], g[i + 1][j + 1], g[i + 2][j + 2], g[i + 3][j + 3]]
  }

  /** The window (i + k, j - k), k < 4. */
  function UpLeft(g: Grid, i: int, j: int): seq<CellState>
    requires 0 <= i && i + 3 < Height && 3 <= j < Width
  {
    [g[i][j], g[i + 1][j - 1], g[i + 2][j - 2], g[i + 3][j - 3]]
  }

  /** The sum of the potentials of rows 0 .. n-1. */
  function RowsScore(g: Grid, me: Player, n: int): (r: int)
    requires 0 <= n <= Height
    ensures 0 <= r <= Width * n
  {
    if n == 0 then 0 else RowsScore(g, me, n - 1) + Potential(g[n - 1], me)
  }

  /** The sum of the potentials of columns 0 .. n-1. */
  function ColumnsScore(g: Grid, me: Player, n: int): (r: int)
    requires 0 <= n <= Width
    ensures 0 <= r <= Height * n
  {
    if n == 0 then 0 else ColumnsScore(g, me, n - 1) + Potential(Column(g, n - 1), me)
  }

  /** What the diagonal windows whose bottom cell is (i, j) add: up-right, then up-left. */
  function DiagonalsAt(g: Grid, me: Player, i: int, j: int): (r: int)
    requires 0 <= i < Height && 0 <= j < Width
    ensures 0 <= r <= 8
  {
    var upRight := if i + 3 < Height && j + 3 < Width then UpRight(g, i, j) else [];
    var upLeft := if i + 3 < Height && j >= 3 then UpLeft(g, i, j) else [];
    Potential(upRight, me) + Potential(upLeft, me)
  }

  /** The diagonal windows whose bottom cell is in row i and column < n. */
  function RowDiagonals(g: Grid, me: Player, i: int, n: int): (r: int)
    requires 0 <= i < Height && 0 <= n <= Width
    ensures 0 <= r <= 8 * n
  {
    if n == 0 then 0 else RowDiagonals(g, me, i, n - 1) + DiagonalsAt(g, me, i, n - 1)
  }

  /** Column j of row i adds its up-right window when it fits, then its up-left window when it fits. */
  lemma RowDiagonalsNext(g: Grid, me: Player, i: int, j: int)
    requires 0 <= i < Height && 0 <= j < Width
    ensures RowDiagonals(g, me, i, j + 1) == RowDiagonals(g, me, i, j)
      + (if i + 3 < Height && j + 3 < Width then Potential(UpRight(g, i, j), me) else 0)
      + (if i + 3 < Height && j >= 3 then Potential(UpLeft(g, i, j), me) else 0)
  {
  }

  /** The diagonal windows whose bottom cell is in a row < m. */
  function DiagonalsScore(g: Grid, me: Player, m: int): (r: int)
    requires 0 <= m <= Height
    ensures 0 <= r <= 8 * Width * m
  {
    if m == 0 then 0 else DiagonalsScore(g, me, m - 1) + RowDiagonals(g, me, m - 1, Width)
  }

  /**
   * `better_evaluate`: the potentials of every row, every column and every
   * on-board four-cell window going up-right or up-left, for the player to move.
   */
  function LinePotential(p: Position): (r: int)
    ensures 0 <= r <= Width * Height + Height * Width + 8 * Width * Height
  {
    RowsScore(p.grid, p.turn, Height) + ColumnsScore(p.grid, p.turn, Width)
    + DiagonalsScore(p.grid, p.turn, Height)
  }

  lemma {:induction false} NoStonesRows(g: Grid, me: Player, n: int)
    requires 0 <= n <= Height && NoStonesOf(g, me)
    ensures RowsScore(g, me, n) == 0
  {
    if n > 0 {
      NoStonesRows(g, me, n - 1);
      NoStonesNoPotential(g[n - 1], me);
    }
  }

  lemma {:induction false} NoStonesColumns(g: Grid, me: Player, n: int)
    requires 0 <= n <= Width && NoStonesOf(g, me)
    ensures ColumnsScore(g, me, n) == 0
  {
    if n > 0 {
      NoStonesColumns(g, me, n - 1);
      NoStonesNoPotential(Column(g, n - 1), me);
    }
  }

  lemma {:induction false} NoStonesRowDiagonals(g: Grid, me: Player, i: int, n: int)
    requires 0 <= i < Height && 0 <= n <= Width && NoStonesOf(g, me)
    ensures RowDiagonals(g, me, i, n) == 0
  {
    if n > 0 {
      NoStonesRowDiagonals(g, me, i, n - 1);
      var j := n - 1;
      var upRight := if i + 3 < Height && j + 3 < Width then UpRight(g, i, j) else [];
      var upLeft := if i + 3 < Height && j >= 3 then UpLeft(g, i, j) else [];
      NoStonesNoPotential(upRight, me);
      NoStonesNoPotential(upLeft, me);
    }
  }

  lemma {:induction false} NoStonesDiagonals(g: Grid, me: Player, m: int)
    requires 0 <= m <= Height && NoStonesOf(g, me)
    ensures DiagonalsScore(g, me, m) == 0
  {
    if m > 0 {
      NoStonesDiagonals(g, me, m - 1);
      NoStonesRowDiagonals(g, me, m - 1, Width);
    }
  }

  /** A player with no stone on the board has no potential at all. */
  lemma NoStonesNoLinePotential(p: Position)
    requires NoStonesOf(p.grid, p.turn)
    ensures LinePotential(p) == 0
  {
    NoStonesRows(p.grid, p.turn, Height);
    NoStonesColumns(p.grid, p.turn, Width);
    NoStonesDiagonals(p.grid, p.turn, Height);
  }

  /**
   * `evaluate_board`: +100 when the reported winner is the player to move,
   * -100 when it is the other player, and the line potential when nobody has won.
   */
  function StaticScore(p: Position): (r: int)
    ensures Winner(p.grid) == Some(p.turn) ==> r == 100
    ensures Winner(p.grid) == Some(p.turn.Other()) ==> r == -100
    ensures Winner(p.grid) == None ==> r == LinePotential(p)
    ensures -100 <= r <= 420
  {
    match Winner(p.grid)
    case Some(w) => if w == p.turn then 100 else -100
    case None => LinePotential(p)
  }

  /** A negative score means exactly that the other player has a four reported. */
  lemma NegativeMeansLost(p: Position)
    ensures StaticScore(p) < 0 <==> Winner(p.grid) == Some(p.turn.Other())
  {
    if Winner(p.grid).Some? {
      var w := Winner(p.grid).value;
      assert w == p.turn || w == p.turn.Other();
    }
  }

  /** On the empty board the score is 0 for the player to move. */
  lemma EmptyBoardScoresZero(turn: Player)
    ensures StaticScore(Position(EmptyGrid(), turn)) == 0
  {
    NoWinnerOnEmptyBoard();
    NoStonesNoLinePotential(Position(EmptyGrid(), turn));
  }
}
