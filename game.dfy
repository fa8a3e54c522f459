/**
 * The `Connect4` struct of src/lib.rs: a 6x7 array of cells updated in place,
 * the board size and the player to move. The move history is an addition of
 * this model: `undo`, which the search calls, is not defined in src/lib.rs,
 * and it needs to know which column was played last.
 */
module Game {
  import opened Rules

  datatype UndoResult = Undone | EmptyHistory

  class Connect4 {
    const board: array2<CellState>
    const size: Size
    var turn: Player
    var history: seq<int>
    /** The board as a value, kept equal to the array. */
    ghost var cells: Grid

    /** The array is 6x7 and agrees with `cells`, and the size is 7 wide and 6 high. */
    ghost predicate Consistent()
      reads this, board
    {
      && board.Length0 == Height && board.Length1 == Width
      && size == Size(Width, Height)
      && (forall i, j :: 0 <= i < Height && 0 <= j < Width ==> board[i, j] == cells[i][j])
    }

    /**
     * The representation invariant: the board is consistent, and the position
     * is the one reached by replaying the history from the initial position.
     */
    ghost predicate Valid()
      reads this, board
    {
      Consistent() && Replay(history) == Some(Position(cells, turn))
    }

    ghost function Pos(): Position
      reads this
    {
      Position(cells, turn)
    }

    /** `Connect4::new`: an empty 6x7 board, width 7, height 6, Red to move. */
    constructor ()
      ensures Valid() && fresh(board)
      ensures size.width == 7 && size.height == 6
      ensures cells == EmptyGrid() && turn == Player.Red && history == []
      ensures forall i, j :: 0 <= i < 6 && 0 <= j < 7 ==> board[i, j] == CellState.Empty
    {
      board := new CellState[Height, Width]((i, j) => CellState.Empty);
      size := Size(Width, Height);
      turn := Player.Red;
      history := [];
      cells := EmptyGrid();
    }

    /** The assumed accessor `get_turn`: the player to move. */
    function GetTurn(): (p: Player)
      reads this
      ensures p == turn
    {
      turn
    }

    /**
     * The assumed accessor `get_cell(i, j)`: the colour of a filled cell on the
     * board, None for an empty cell or a position off the board.
     */
    function GetCell(i: int, j: int): (c: Option<Player>)
      reads this, board
      requires Consistent()
      ensures c.Some? <==> 0 <= i < Height && 0 <= j < Width && cells[i][j] != CellState.Empty
      ensures c.Some? ==> CellOf(c.value) == cells[i][j]
    {
      if 0 <= i < size.height && 0 <= j < size.width && board[i, j] != CellState.Empty
      then Some(PlayerOf(board[i, j]))
      else None
    }

    /** Writes one cell of the board, keeping `cells` in step with it. */
    method Put(r: int, c: int, v: CellState)
      requires Consistent() && 0 <= r < Height && 0 <= c < Width
      modifies this, board
      ensures Consistent() && cells == Set(old(cells), r, c, v)
      ensures turn == old(turn) && history == old(history)
    {
      board[r, c] := v;
      cells := Set(cells, r, c, v);
    }

    /**
     * `play(col)`: false with nothing changed when col is off the board or its
     * column is full; otherwise the mover's stone goes into the lowest empty row
     * of the column, the turn flips, and the column is recorded.
     */
    method Play(col: int) returns (ok: bool)
      requires Valid()
      modifies this, board
      ensures Valid()
      ensures ok == Drop(old(Pos()), col).Some?
      ensures Pos() == if ok then Drop(old(Pos()), col).value else old(Pos())
      ensures history == if ok then old(history) + [col] else old(history)
    {
      if col < 0 || col >= size.width {
        return false;
      }
      var i := 0;
      while i < size.height
        invariant 0 <= i <= Height
        invariant forall k :: 0 <= k < i ==> cells[k][col] != CellState.Empty
        invariant unchanged(this, board)
      {
        if board[i, col] == CellState.Empty {
          assert LowestEmpty(cells, col, i);
          Put(i, col, CellOf(turn));
          turn := turn.Other();
          history := history + [col];
          assert history[..|history| - 1] == old(history);
          return true;
        }
        i := i + 1;
      }
      return false;
    }

    /**
     * The assumed `undo`: EmptyHistory with nothing changed when no move was
     * played; otherwise the top stone of the last-played column is removed,
     * the turn flips back and the column leaves the history.
     */
    method Undo() returns (res: UndoResult)
      requires Valid()
      modifies this, board
      ensures Valid()
      ensures res == EmptyHistory <==> old(history) == []
      ensures old(history) == [] ==> Pos() == old(Pos()) && history == []
      ensures old(history) != [] ==>
        && history == old(history)[..|old(history)| - 1]
        && TakeBack(old(Pos()), old(history)[|old(history)| - 1]) == Some(Pos())
    {
      if history == [] {
        return EmptyHistory;
      }
      var col := history[|history| - 1];
      var i := size.height;
      while i > 0 && board[i - 1, col] == CellState.Empty
        invariant 0 <= i <= Height
        invariant forall k :: i <= k < Height ==> cells[k][col] == CellState.Empty
      {
        i := i - 1;
      }
      assert i > 0 by {
        TakeBackUndoesLast(history);
      }
      ghost var after := Position(Set(cells, i - 1, col, CellState.Empty), turn.Other());
      assert Replay(history[..|history| - 1]) == Some(after) && TakeBack(Pos(), col) == Some(after) by {
        TakeBackUndoesLast(history);
        assert TopStone(cells, col, i - 1);
      }
      Put(i - 1, col, CellState.Empty);
      turn := turn.Other();
      history := history[..|history| - 1];
      return Undone;
    }

    /**
     * `check_win(row, col)`: whether the start cell begins a run of at least
     * four equal cells going right, up or up-right, or whether the four cells
     * (row + k, col - 1 - k) all equal it. Each of the four scans is one
     * helper below.
     */
    method CheckWin(row: int, col: int) returns (b: bool)
      requires Consistent() && 0 <= row < Height && 0 <= col < Width
      ensures b == WinsFrom(cells, row, col)
    {
      var count := ScanRight(row, col);
      if count >= 4 {
        return true;
      }
      count := ScanUp(row, col);
      if count >= 4 {
        return true;
      }
      count := ScanUpRight(row, col);
      if count >= 4 {
        return true;
      }
      count := ScanAntiDiagonal(row, col);
      if count >= 4 {
        return true;
      }
      return false;
    }

    /** The horizontal scan of `check_win`: it reaches 4 exactly when four equal cells go right. */
    method ScanRight(row: int, col: int) returns (count: int)
      requires Consistent() && 0 <= row < Height && 0 <= col < Width
      ensures count >= 4 <==> Four(cells, row, col, 0, 1, cells[row][col])
    {
      var v := cells[row][col];
      count := 0;
      var j := col;
      while j < size.width && board[row, j] == board[row, col]
        invariant col <= j <= Width && count == j - col
        invariant forall k :: col <= k < j ==> cells[row][k] == v
      {
        count := count + 1;
        j := j + 1;
      }
      assert count < 4 ==> count == 0 || count == 1 || count == 2 || count == 3;
    }

    /** The vertical scan of `check_win`: it reaches 4 exactly when four equal cells go up. */
    method ScanUp(row: int, col: int) returns (count: int)
      requires Consistent() && 0 <= row < Height && 0 <= col < Width
      ensures count >= 4 <==> Four(cells, row, col, 1, 0, cells[row][col])
    {
      var v := cells[row][col];
      count := 0;
      var i := row;
      while i < size.height && board[i, col] == board[row, col]
        invariant row <= i <= Height && count == i - row
        invariant forall k :: row <= k < i ==> cells[k][col] == v
      {
        count := count + 1;
        i := i + 1;
      }
      assert count < 4 ==> count == 0 || count == 1 || count == 2 || count == 3;
    }

    /** The diagonal scan of `check_win`: it reaches 4 exactly when four equal cells go up-right. */
    method ScanUpRight(row: int, col: int) returns (count: int)
      requires Consistent() && 0 <= row < Height && 0 <= col < Width
      ensures count >= 4 <==> Four(cells, row, col, 1, 1, cells[row][col])
    {
      var v := cells[row][col];
      count := 0;
      var i, j := row, col;
      while i < size.height && j < size.width && board[i, j] == board[row, col]
        invariant row <= i <= Height && j <= Width && count == i - row && j == col + count
        invariant forall r :: row <= r < i ==> cells[r][col + (r - row)] == v
      {
        count := count + 1;
        i := i + 1;
        j := j + 1;
      }
      assert count < 4 ==> count == 0 || count == 1 || count == 2 || count == 3;
    }

    /**
     * The anti-diagonal scan of `check_win`, which compares the cell to the
     * LEFT of (i, j) with the start cell: it reaches 4 exactly when the cells
     * (row + k, col - 1 - k), k < 4, are on the board and equal the start cell.
     */
    method ScanAntiDiagonal(row: int, col: int) returns (count: int)
      requires Consistent() && 0 <= row < Height && 0 <= col < Width
      ensures count >= 4 <==> Four(cells, row, col - 1, 1, -1, cells[row][col])
    {
      var v := cells[row][col];
      count := 0;
      var i, j := row, col;
      while i < size.height && j > 0 && board[i, j - 1] == board[row, col]
        invariant row <= i <= Height && 0 <= j && count == i - row && j == col - count
        invariant forall r :: row <= r < i ==> cells[r][col - 1 - (r - row)] == v
      {
        count := count + 1;
        i := i + 1;
        j := j - 1;
      }
      if count >= 4 {
        assert cells[row + 3][col - 1 - 3] == v && cells[row + 2][col - 1 - 2] == v;
        assert cells[row + 1][col - 1 - 1] == v && cells[row][col - 1] == v;
      } else {
        assert count == 0 || count == 1 || count == 2 || count == 3;
      }
    }

    /**
     * `is_someone_winning`: scans the filled cells in row-major order and
     * returns the colour of the first one on which `check_win` succeeds.
     */
    method IsSomeoneWinning() returns (w: Option<Player>)
      requires Consistent()
      ensures w == Winner(cells)
    {
      var i := 0;
      while i < size.height
        invariant 0 <= i <= Height
        invariant Winner(cells) == WinnerFrom(cells, i, 0)
      {
        var j := 0;
        while j < size.width
          invariant 0 <= j <= Width
          invariant Winner(cells) == WinnerFrom(cells, i, j)
        {
          if board[i, j] != CellState.Empty {
            var won := CheckWin(i, j);
            if won {
              assert IsWinStart(cells, i, j);
              return Some(PlayerOf(board[i, j]));
            }
          }
          assert !IsWinStart(cells, i, j);
          assert WinnerFrom(cells, i, j) == WinnerFrom(cells, i, j + 1);
          j := j + 1;
        }
        i := i + 1;
      }
      return None;
    }
  }
}
