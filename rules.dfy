/**
 * Value-level rules of the Connect-4 board (src/lib.rs): the cell and player
 * types, the 6x7 grid, dropping a stone, taking the top stone back, replaying a
 * move history from the empty board, and the four-in-a-row scan.
 * Row 0 is the bottom row; a grid is indexed g[row][column].
 */
module Rules {

  const Width := 7
  const Height := 6

  datatype Option<T> = None | Some(value: T)

  datatype Player = Red | Yellow {
    /** The other player: the turn flip used by `play` and `undo`. */
    function Other(): (q: Player)
      ensures q != this
    {
      if this == Player.Red then Player.Yellow else Player.Red
    }
  }

  datatype CellState = Empty | Red | Yellow

  datatype Size = Size(width: nat, height: nat)

  /** A board: Height rows of Width cells. */
  type Grid = g: seq<seq<CellState>> | |g| == Height && forall i :: 0 <= i < |g| ==> |g[i]| == Width
    witness seq(6, i => seq(7, j => CellState.Empty))

  datatype Position = Position(grid: Grid, turn: Player)

  /** The colour a player's stones have on the board. */
  function CellOf(p: Player): (c: CellState)
    ensures c != CellState.Empty
  {
    if p == Player.Red then CellState.Red else CellState.Yellow
  }

  function PlayerOf(c: CellState): (p: Player)
    requires c != CellState.Empty
    ensures CellOf(p) == c
  {
    if c == CellState.Red then Player.Red else Player.Yellow
  }

  function EmptyGrid(): Grid
  {
    seq(Height, i => seq(Width, j => CellState.Empty))
  }

  /** The position `Connect4::new` builds: an empty board, Red to move. */
  function Initial(): Position
  {
    Position(EmptyGrid(), Player.Red)
  }

  /** The grid with cell (r, c) replaced by v. */
  function Set(g: Grid, r: int, c: int, v: CellState): (h: Grid)
    requires 0 <= r < Height && 0 <= c < Width
    ensures forall i, j :: 0 <= i < Height && 0 <= j < Width ==>
      h[i][j] == if i == r && j == c then v else g[i][j]
  {
    g[r := g[r][c := v]]
  }

  // ----- Stone counts -----

  /** How many cells of s hold v. */
  function CountIn(s: seq<CellState>, v: CellState): (n: nat)
    ensures n <= |s|
  {
    if s == [] then 0 else CountIn(s[..|s| - 1], v) + (if s[|s| - 1] == v then 1 else 0)
  }

  /** How many cells of the given rows hold v. */
  function CountRows(rows: seq<seq<CellState>>, v: CellState): nat
  {
    if rows == [] then 0 else CountRows(rows[..|rows| - 1], v) + CountIn(rows[|rows| - 1], v)
  }

  function Count(g: Grid, v: CellState): nat
  {
    CountRows(g, v)
  }

  function EmptyCount(g: Grid): nat
  {
    Count(g, CellState.Empty)
  }

  function Indicator(b: bool): nat
  {
    if b then 1 else 0
  }

  /** Overwriting one element of a row changes its count of v by the two elements' contributions. */
  lemma {:induction false} CountInUpdate(s: seq<CellState>, c: int, x: CellState, v: CellState)
    requires 0 <= c < |s|
    ensures CountIn(s[c := x], v) + Indicator(s[c] == v) == CountIn(s, v) + Indicator(x == v)
    decreases |s|
  {
    var n := |s| - 1;
    var u := s[c := x];
    if c == n {
      assert u[..n] == s[..n];
    } else {
      assert u[..n] == s[..n][c := x];
      CountInUpdate(s[..n], c, x, v);
    }
  }

  /** Replacing one row changes the count of v by the two rows' counts. */
  lemma {:induction false} CountRowsUpdate(rows: seq<seq<CellState>>, r: int, x: seq<CellState>, v: CellState)
    requires 0 <= r < |rows|
    ensures CountRows(rows[r := x], v) + CountIn(rows[r], v) == CountRows(rows, v) + CountIn(x, v)
    decreases |rows|
  {
    var n := |rows| - 1;
    var u := rows[r := x];
    if r == n {
      assert u[..n] == rows[..n];
    } else {
      assert u[..n] == rows[..n][r := x];
      CountRowsUpdate(rows[..n], r, x, v);
    }
  }

  /** Writing x over cell (r, c) trades one g[r][c] for one x in every count. */
  lemma SetCount(g: Grid, r: int, c: int, x: CellState, v: CellState)
    requires 0 <= r < Height && 0 <= c < Width
    ensures Count(Set(g, r, c, x), v) + Indicator(g[r][c] == v) == Count(g, v) + Indicator(x == v)
  {
    CountInUpdate(g[r], c, x, v);
    CountRowsUpdate(g, r, g[r][c := x], v);
  }

  lemma {:induction false} CountRowsAbsent(rows: seq<seq<CellState>>, v: CellState)
    requires forall i :: 0 <= i < |rows| ==> v !in rows[i]
    ensures CountRows(rows, v) == 0
    decreases |rows|
  {
    if rows != [] {
      CountInAbsent(rows[|rows| - 1], v);
      CountRowsAbsent(rows[..|rows| - 1], v);
    }
  }

  lemma {:induction false} CountInAbsent(s: seq<CellState>, v: CellState)
    requires v !in s
    ensures CountIn(s, v) == 0
    decreases |s|
  {
    if s != [] {
      CountInAbsent(s[..|s| - 1], v);
    }
  }

  // ----- Columns: where a stone lands and which stone is on top -----

  predicate ColumnFull(g: Grid, col: int)
    requires 0 <= col < Width
  {
    forall k :: 0 <= k < Height ==> g[k][col] != CellState.Empty
  }

  /** Row r is the lowest empty cell of column col. */
  predicate LowestEmpty(g: Grid, col: int, r: int)
  {
    0 <= col < Width && 0 <= r < Height && g[r][col] == CellState.Empty
    && forall k :: 0 <= k < r ==> g[k][col] != CellState.Empty
  }

  /** Row r holds the top stone of column col. */
  predicate TopStone(g: Grid, col: int, r: int)
  {
    0 <= col < Width && 0 <= r < Height && g[r][col] != CellState.Empty
    && forall k :: r < k < Height ==> g[k][col] == CellState.Empty
  }

  /** The scan of `play`: the first empty row of column col at or above row i. */
  function LowestEmptyFrom(g: Grid, col: int, i: int): (r: Option<int>)
    requires 0 <= col < Width && 0 <= i <= Height
    requires forall k :: 0 <= k < i ==> g[k][col] != CellState.Empty
    ensures r.Some? ==> LowestEmpty(g, col, r.value)
    ensures r.None? ==> ColumnFull(g, col)
    decreases Height - i
  {
    if i == Height then None
    else if g[i][col] == CellState.Empty then Some(i)
    else LowestEmptyFrom(g, col, i + 1)
  }

  /** The downward scan for the top stone of column col, below row i. */
  function TopStoneBelow(g: Grid, col: int, i: int): (r: Option<int>)
    requires 0 <= col < Width && 0 <= i <= Height
    requires forall k :: i <= k < Height ==> g[k][col] == CellState.Empty
    ensures r.Some? ==> TopStone(g, col, r.value)
    ensures r.None? <==> forall k :: 0 <= k < Height ==> g[k][col] == CellState.Empty
    decreases i
  {
    if i == 0 then None
    else if g[i - 1][col] != CellState.Empty then Some(i - 1)
    else TopStoneBelow(g, col, i - 1)
  }

  /**
   * `play(col)` on a position: None when col is outside [0, Width) or the
   * column is full; otherwise the mover's stone lands in the lowest empty row,
   * every other cell is kept, and the turn passes to the other player.
   */
  function Drop(p: Position, col: int): (q: Option<Position>)
    ensures q.None? <==> col < 0 || col >= Width || ColumnFull(p.grid, col)
    ensures forall r :: LowestEmpty(p.grid, col, r) ==>
      q == Some(Position(Set(p.grid, r, col, CellOf(p.turn)), p.turn.Other()))
  {
    if col < 0 || col >= Width then None
    else
      match LowestEmptyFrom(p.grid, col, 0)
      case None => None
      case Some(r) => Some(Position(Set(p.grid, r, col, CellOf(p.turn)), p.turn.Other()))
  }

  /** A successful play adds one stone of the mover's colour and fills one empty cell. */
  lemma DropCounts(p: Position, col: int)
    requires Drop(p, col).Some?
    ensures Count(Drop(p, col).value.grid, CellOf(p.turn)) == Count(p.grid, CellOf(p.turn)) + 1
    ensures Count(Drop(p, col).value.grid, CellOf(p.turn.Other())) == Count(p.grid, CellOf(p.turn.Other()))
    ensures EmptyCount(Drop(p, col).value.grid) + 1 == EmptyCount(p.grid)
  {
    var r := LowestEmptyFrom(p.grid, col, 0).value;
    SetCount(p.grid, r, col, CellOf(p.turn), CellOf(p.turn));
    SetCount(p.grid, r, col, CellOf(p.turn), CellOf(p.turn.Other()));
    SetCount(p.grid, r, col, CellOf(p.turn), CellState.Empty);
  }

  /**
   * The assumed `undo` on a position, given the last-played column: the top
   * stone of that column is removed and the turn flips back; None when the
   * column is out of range or holds no stone.
   */
  function TakeBack(p: Position, col: int): (q: Option<Position>)
    ensures q.None? <==> col < 0 || col >= Width || forall k :: 0 <= k < Height ==> p.grid[k][col] == CellState.Empty
    ensures forall r :: TopStone(p.grid, col, r) ==>
      q == Some(Position(Set(p.grid, r, col, CellState.Empty), p.turn.Other()))
  {
    if col < 0 || col >= Width then None
    else
      match TopStoneBelow(p.grid, col, Height)
      case None => None
      case Some(r) => Some(Position(Set(p.grid, r, col, CellState.Empty), p.turn.Other()))
  }

  /** The position reached by playing `moves` from the initial position, if every move is legal. */
  function Replay(moves: seq<int>): Option<Position>
    decreases |moves|
  {
    if moves == [] then Some(Initial())
    else
      match Replay(moves[..|moves| - 1])
      case None => None
      case Some(p) => Drop(p, moves[|moves| - 1])
  }

  // ----- Invariants of reachable positions -----

  /** No filled cell sits above an empty cell of the same column. */
  predicate Gravity(g: Grid)
  {
    forall r1, r2, c :: 0 <= r1 < r2 < Height && 0 <= c < Width && g[r2][c] != CellState.Empty ==>
      g[r1][c] != CellState.Empty
  }

  /** Red has as many stones as Yellow when Red is to move, and one more when Yellow is. */
  predicate Balanced(p: Position)
  {
    var red, yellow := Count(p.grid, CellState.Red), Count(p.grid, CellState.Yellow);
    if p.turn == Player.Red then red == yellow else red == yellow + 1
  }

  lemma DropKeepsGravity(p: Position, col: int)
    requires Gravity(p.grid) && Drop(p, col).Some?
    ensures Gravity(Drop(p, col).value.grid)
  {
    var r := LowestEmptyFrom(p.grid, col, 0).value;
    assert LowestEmpty(p.grid, col, r);
  }

  lemma DropKeepsBalance(p: Position, col: int)
    requires Balanced(p) && Drop(p, col).Some?
    ensures Balanced(Drop(p, col).value)
  {
    DropCounts(p, col);
  }

  /**
   * Every position reachable from `Connect4::new` by successful plays obeys
   * gravity, is balanced, and holds exactly one stone per move played.
   */
  lemma {:induction false} ReachableInvariants(moves: seq<int>)
    requires Replay(moves).Some?
    ensures Gravity(Replay(moves).value.grid)
    ensures Balanced(Replay(moves).value)
    ensures Count(Replay(moves).value.grid, CellState.Red)
          + Count(Replay(moves).value.grid, CellState.Yellow) == |moves|
    decreases |moves|
  {
    if moves == [] {
      var g := EmptyGrid();
      CountRowsAbsent(g, CellState.Red);
      CountRowsAbsent(g, CellState.Yellow);
    } else {
      var prefix := moves[..|moves| - 1];
      var col := moves[|moves| - 1];
      ReachableInvariants(prefix);
      var p := Replay(prefix).value;
      DropKeepsGravity(p, col);
      DropKeepsBalance(p, col);
      DropCounts(p, col);
    }
  }

  /** play followed by undo restores the position exactly, on any board that obeys gravity. */
  lemma DropThenTakeBack(p: Position, col: int)
    requires Gravity(p.grid) && Drop(p, col).Some?
    ensures TakeBack(Drop(p, col).value, col) == Some(p)
  {
    var g := p.grid;
    var r := LowestEmptyFrom(g, col, 0).value;
    assert LowestEmpty(g, col, r);
    var q := Drop(p, col).value;
    assert q.grid == Set(g, r, col, CellOf(p.turn));
    assert TopStone(q.grid, col, r);
    assert g[r][col := CellOf(p.turn)][col := CellState.Empty] == g[r];
    assert Set(q.grid, r, col, CellState.Empty) == g;
  }

  /**
   * Taking back the last move of a legal game gives the position before it:
   * what `undo` relies on.
   */
  lemma TakeBackUndoesLast(moves: seq<int>)
    requires moves != [] && Replay(moves).Some?
    ensures Replay(moves[..|moves| - 1]).Some?
    ensures TakeBack(Replay(moves).value, moves[|moves| - 1]) == Replay(moves[..|moves| - 1])
  {
    var prefix := moves[..|moves| - 1];
    ReachableInvariants(prefix);
    DropThenTakeBack(Replay(prefix).value, moves[|moves| - 1]);
  }

  // ----- Four in a row, as `check_win` scans for it -----

  /** The cell at (r, c), or None off the board. */
  function At(g: Grid, r: int, c: int): Option<CellState>
  {
    if 0 <= r < Height && 0 <= c < Width then Some(g[r][c]) else None
  }

  /** Four on-board cells from (r, c) in steps of (dr, dc) all hold v. */
  predicate Four(g: Grid, r: int, c: int, dr: int, dc: int, v: CellState)
  {
    At(g, r, c) == Some(v) && At(g, r + dr, c + dc) == Some(v)
    && At(g, r + 2 * dr, c + 2 * dc) == Some(v) && At(g, r + 3 * dr, c + 3 * dc) == Some(v)
  }

  /**
   * What `check_win(row, col)` reports: a run of four equal to the start cell
   * going right, going up, going up-right, or -- as the fourth scan is written
   * -- the cells (row + k, col - 1 - k), which start one column to the LEFT of
   * the start cell.
   */
  predicate WinsFrom(g: Grid, row: int, col: int)
    requires 0 <= row < Height && 0 <= col < Width
  {
    var v := g[row][col];
    Four(g, row, col, 0, 1, v) || Four(g, row, col, 1, 0, v)
    || Four(g, row, col, 1, 1, v) || Four(g, row, col - 1, 1, -1, v)
  }

  /** A filled cell on which `check_win` succeeds. */
  predicate IsWinStart(g: Grid, a: int, b: int)
  {
    0 <= a < Height && 0 <= b < Width && g[a][b] != CellState.Empty && WinsFrom(g, a, b)
  }

  /** (a, b) is a cell of the board at or after (i, j) in row-major order. */
  predicate NotBefore(a: int, b: int, i: int, j: int)
  {
    0 <= a < Height && 0 <= b < Width && (a > i || (a == i && b >= j))
  }

  /**
   * The scan of `is_someone_winning` from cell (i, j) on: the colour of the
   * first win start in row-major order, or None when there is none.
   */
  function WinnerFrom(g: Grid, i: int, j: int): Option<Player>
    requires 0 <= i <= Height && 0 <= j <= Width
    decreases Height - i, Width - j
  {
    if i == Height then None
    else if j == Width then WinnerFrom(g, i + 1, 0)
    else if IsWinStart(g, i, j) then Some(PlayerOf(g[i][j]))
    else WinnerFrom(g, i, j + 1)
  }

  /** The scan from (i, j) finds nothing exactly when no cell from (i, j) on is a win start. */
  lemma {:induction false} WinnerFromNone(g: Grid, i: int, j: int)
    requires 0 <= i <= Height && 0 <= j <= Width
    ensures WinnerFrom(g, i, j).None? <==> forall a, b :: NotBefore(a, b, i, j) ==> !IsWinStart(g, a, b)
    decreases Height - i, Width - j
  {
    if i == Height {
    } else if j == Width {
      WinnerFromNone(g, i + 1, 0);
    } else if IsWinStart(g, i, j) {
      assert NotBefore(i, j, i, j);
    } else {
      WinnerFromNone(g, i, j + 1);
    }
  }

  /**
   * When the scan from (i, j) finds a winner, it is the colour of a win start
   * from (i, j) on that no earlier win start from (i, j) on precedes.
   */
  lemma {:induction false} WinnerFromFirst(g: Grid, i: int, j: int)
    requires 0 <= i <= Height && 0 <= j <= Width
    ensures WinnerFrom(g, i, j).Some? ==> exists a, b ::
      && NotBefore(a, b, i, j) && IsWinStart(g, a, b) && CellOf(WinnerFrom(g, i, j).value) == g[a][b]
      && forall a', b' :: NotBefore(a', b', i, j) && !NotBefore(a', b', a, b) ==> !IsWinStart(g, a', b')
    decreases Height - i, Width - j
  {
    if i == Height {
    } else if j == Width {
      WinnerFromFirst(g, i + 1, 0);
    } else if IsWinStart(g, i, j) {
      assert NotBefore(i, j, i, j);
    } else {
      WinnerFromFirst(g, i, j + 1);
    }
  }

  function Winner(g: Grid): Option<Player>
  {
    WinnerFrom(g, 0, 0)
  }

  /**
   * `is_someone_winning` reports a winner exactly when some filled cell is a
   * win start, and the colour it reports is that of the first such cell in
   * row-major order.
   */
  lemma WinnerIsFirstWinStart(g: Grid)
    ensures Winner(g).None? <==> forall a, b :: !IsWinStart(g, a, b)
    ensures Winner(g).Some? ==> exists a, b ::
      && IsWinStart(g, a, b) && CellOf(Winner(g).value) == g[a][b]
      && forall a', b' :: !NotBefore(a', b', a, b) ==> !IsWinStart(g, a', b')
  {
    WinnerFromNone(g, 0, 0);
    WinnerFromFirst(g, 0, 0);
  }

  /** The empty board has no winner. */
  lemma NoWinnerOnEmptyBoard()
    ensures Winner(EmptyGrid()) == None
  {
    WinnerIsFirstWinStart(EmptyGrid());
  }

  /**
   * Every four-in-a-row going right, up or up-right is detected: whichever
   * filled cell begins it, `is_someone_winning` reports some winner.
   */
  lemma DetectsFour(g: Grid, r: int, c: int)
    requires 0 <= r < Height && 0 <= c < Width && g[r][c] != CellState.Empty
    requires Four(g, r, c, 0, 1, g[r][c]) || Four(g, r, c, 1, 0, g[r][c]) || Four(g, r, c, 1, 1, g[r][c])
    ensures Winner(g).Some?
  {
    WinnerIsFirstWinStart(g);
    assert IsWinStart(g, r, c);
  }

  /**
   * The fourth scan of `check_win` finds an up-left four whose lowest stone is
   * at (r, c) only from the start cell (r, c + 1), so only when that cell
   * exists and holds the same colour.
   */
  lemma UpLeftNeedsRightNeighbour(g: Grid, r: int, c: int)
    requires 0 <= r < Height && 0 <= c < Width && g[r][c] != CellState.Empty
    requires Four(g, r, c, 1, -1, g[r][c])
    ensures c + 1 < Width ==> (Four(g, r, c, 1, -1, g[r][c + 1]) <==> g[r][c + 1] == g[r][c])
    ensures c + 1 < Width && g[r][c + 1] == g[r][c] ==> IsWinStart(g, r, c + 1)
  {
  }

  /**
   * A board with an up-left four of Red from the rightmost column, (0, 6) up
   * to (3, 3), whose lowest stone has no right neighbour. Row 0 first. It is
   * the board after the columns 3, 3, 6, 3, 3, 4, 0, 4, 4, 5, 5, 1 are played
   * from the empty board, Red first; the eleventh move, Red's, completes the four.
   */
  function UpLeftGame(): Grid
  {
    var E, R, Y := CellState.Empty, CellState.Red, CellState.Yellow;
    [ [R, Y, E, R, Y, Y, R],
      [E, E, E, Y, Y, R, E],
      [E, E, E, Y, R, E, E],
      [E, E, E, R, E, E, E],
      [E, E, E, E, E, E, E],
      [E, E, E, E, E, E, E] ]
  }

  /** The board obeys gravity and holds Red's up-left four from (0, 6). */
  lemma UpLeftGameHasFour()
    ensures Gravity(UpLeftGame())
    ensures Four(UpLeftGame(), 0, 6, 1, -1, CellState.Red)
  {
  }

  /** `is_someone_winning` misses that four: no cell begins a scan that succeeds. */
  lemma UpLeftFourMissed()
    ensures Winner(UpLeftGame()) == None
  {
    WinnerIsFirstWinStart(UpLeftGame());
    UpLeftGameNoWinStart();
  }

  /** No cell of the board begins a scan of `check_win` that succeeds. */
  lemma UpLeftGameNoWinStart()
    ensures forall a, b :: !IsWinStart(UpLeftGame(), a, b)
  {
    var g := UpLeftGame();
    forall a, b | 0 <= a < Height && 0 <= b < Width && g[a][b] != CellState.Empty
      ensures !WinsFrom(g, a, b)
    {
      assert !WinsFrom(g, a, b);
    }
  }
}
