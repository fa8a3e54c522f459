# Connect 4 engine: a verified Dafny model

This project models the game engine of a Connect-4 server written in Rust:
the board and its rules (`src/lib.rs`) and the static evaluation and
alpha-beta search of the computer player (`src/evaluator.rs`).

- `rules.dfy` (module `Rules`) has the value-level rules: players and cell
  states, the 6x7 grid (row 0 at the bottom), dropping a stone into a column,
  taking the top stone of a column back, replaying a move history from the
  empty board, and the four-in-a-row scan of `is_someone_winning` as a
  function `Winner`. It proves that replayed positions keep gravity (no stone
  above an empty cell) and the stone counts tied to the turn. It proves that a
  drop followed by a take-back restores the position. It also proves that
  `Winner` returns the colour of the first win start in row-major order and
  detects every horizontal, vertical and up-right four.
- `game.dfy` (module `Game`) has the `Connect4` struct as a class. Its board
  is an `array2` updated in place, together with the size and the turn.
  `play`, `check_win` and `is_someone_winning` are methods with the source's
  loops, proved against the functions of `Rules`. The class also models the
  accessors `get_turn` and `get_cell` and the `undo` method that the search
  calls. They are not defined in `src/lib.rs`, so their contracts are
  assumptions (see below). `undo` needs to know the last column played, so
  the class keeps a move history. Its invariant says that replaying the
  history gives the current board and turn.
- `heuristic.dfy` (module `Heuristic`) has `evaluate_board` and
  `better_evaluate` as functions of a position. The evaluation is +100 or
  -100 when a winner is reported: +100 when it is the player to move, -100
  when it is the other player. Otherwise it is the line potential. A row, a
  column or an on-board four-cell window going up-right or up-left adds the
  mover's stone count when it holds no opponent stone, and 0 otherwise.
- `search.dfy` (module `Search`) has the reference the search is proved
  against. This is plain negamax over the playable columns, with the same
  leaf test as the search, on integers extended with plus and minus infinity.
  A node with no playable column is worth minus infinity. The module also has
  the lemmas that carry the fail-hard column loop and the root loop of
  `find_best_move`.
- `evaluator.rs`'s functions are the methods of `evaluator.dfy` (module
  `Evaluator`), with the source's loops.
  - `AlphaBetaPruning` returns the static score at a leaf. For any window
    alpha < beta it returns the negamax value clamped to the window at any
    other node.
  - `FindBestMove` returns 8 exactly when no playable column scores above
    -1000. Otherwise it returns the lowest playable column of maximal score.
  - Both leave the board, the turn and the history as they found them.
  - Termination is by the number of empty cells, so it holds for any depth,
    negative ones included.

The anti-diagonal scan of `check_win` compares the cells (row + k, col - 1 - k)
with the start cell (row, col). So an up-left four is reported only when the
cell to the right of its lowest stone has the same colour. The model keeps
this behaviour as the code has it: `ScanAntiDiagonal` and `Four` state it, and
`UpLeftFourMissed` gives a board that obeys gravity and holds an up-left
four, for which `Winner` is None.

The contracts in the table are stated against reference definitions, each of
which stands for one source function and says so in its doc comment:
`Rules.Initial` for `new`, `Rules.Drop` for `play`, `Rules.Four` and
`Rules.WinsFrom` for `check_win`, `Rules.WinnerFrom` and `Rules.Winner` for
`is_someone_winning`, `Heuristic.Potential` and `Heuristic.LinePotential` for
`better_evaluate`, `Heuristic.StaticScore` for `evaluate_board`,
`Search.IsLeaf`, `Search.Negamax` and `Search.SearchValue` for
`alpha_beta_pruning`, and `Search.RootValue` and `Search.Choice` for
`find_best_move`.

The row and column passes of `better_evaluate` scan the whole line and stop
at the first opponent stone, setting the line's count to 0; so a line adds
the mover's stone count only when it holds no opponent stone at all.

## Model

| member | source | states |
|---|---|---|
| Rules.Player.Other | src/lib.rs:60-63 | the turn flip yields the other player |
| Rules.CellOf | src/lib.rs:55-58 | a player's stone colour is never Empty |
| Rules.PlayerOf | src/lib.rs:78-82 | a filled cell's colour maps back to the player whose stone it is |
| Rules.Set | src/lib.rs:55-58 | writing one cell changes that cell to the new state and leaves every other cell unchanged |
| Rules.SetCount | src/lib.rs:55-58 | writing one cell changes the board's count of a colour only by the old and new cell's contributions |
| Rules.LowestEmptyFrom | src/lib.rs:52-69 | the upward scan of a column finds its lowest empty row, or reports the column full |
| Rules.Drop | src/lib.rs:47-70 | play fails exactly for a column off the board or a full column; otherwise the mover's colour goes into the lowest empty row and the turn flips |
| Rules.DropCounts | src/lib.rs:55-63 | a successful drop adds one stone of the mover's colour, none of the other colour, and removes one empty cell |
| Rules.TopStoneBelow | src/evaluator.rs:127 | the downward scan of a column finds its top stone, or reports the column empty |
| Rules.TakeBack | src/evaluator.rs:127 | undo of a column fails exactly for an off-board or empty column; otherwise it empties the top stone and flips the turn back |
| Rules.DropKeepsGravity | src/lib.rs:52-58 | a drop keeps every column filled from the bottom without gaps |
| Rules.DropKeepsBalance | src/lib.rs:52-63 | a drop keeps #Red == #Yellow with Red to move and #Red == #Yellow + 1 with Yellow to move |
| Rules.ReachableInvariants | src/lib.rs:30-70 | every position reached from the new board by successful plays has gravity, balanced counts and the stone total equal to the number of moves |
| Rules.DropThenTakeBack | src/evaluator.rs:125-127 | on a board with gravity, undo right after a successful play restores the exact position |
| Rules.TakeBackUndoesLast | src/evaluator.rs:125-127 | undoing the last move of a replayed history gives the position replayed from the shorter history |
| Rules.WinnerFromNone | src/lib.rs:73-88 | the scan from (i, j) finds nothing exactly when no later cell in row-major order starts a win |
| Rules.WinnerFromFirst | src/lib.rs:73-88 | a scan result is the colour of a win start with no win start before it from (i, j) |
| Rules.WinnerIsFirstWinStart | src/lib.rs:73-88 | is_someone_winning is None exactly when no cell starts a win, and otherwise is the colour of the first win start in row-major order |
| Rules.NoWinnerOnEmptyBoard | src/lib.rs:73-88 | the empty board has no winner |
| Rules.DetectsFour | src/lib.rs:96-126 | any filled cell that begins four equal cells going right, up or up-right makes is_someone_winning report a winner |
| Rules.UpLeftNeedsRightNeighbour | src/lib.rs:129-140 | an up-left four counts from the cell right of its lowest stone exactly when that cell has the same colour |
| Rules.UpLeftGameHasFour | src/lib.rs:129-140 | the example board obeys gravity and holds Red's up-left four whose lowest stone is in the rightmost column |
| Rules.UpLeftGameNoWinStart | src/lib.rs:129-140 | on that board no filled cell begins a scan of `check_win` that succeeds |
| Rules.UpLeftFourMissed | src/lib.rs:133 | on that board `is_someone_winning` reports no winner, although it holds a four |
| Game.Connect4.constructor | src/lib.rs:30-37 | new gives an all-Empty 6x7 board, width 7, height 6, Red to move, and an empty history |
| Game.Connect4.GetTurn | src/evaluator.rs:8-11 | get_turn returns the player to move |
| Game.Connect4.GetCell | src/evaluator.rs:42-45 | get_cell is Some exactly for a filled cell on the board, and then gives its colour |
| Game.Connect4.Put | src/lib.rs:55-58 | the array write changes exactly one cell and keeps the array and the board value in step |
| Game.Connect4.Play | src/lib.rs:47-70 | play returns true exactly when the drop succeeds; then the board and turn become the dropped position and the column joins the history; otherwise nothing changes |
| Game.Connect4.Undo | src/evaluator.rs:127 | undo fails with EmptyHistory exactly when no move was played; otherwise it removes the top stone of the last column played, flips the turn back and shortens the history |
| Game.Connect4.CheckWin | src/lib.rs:90-143 | check_win holds exactly when the cell begins four equal cells going right, up or up-right, or its left neighbour and the three cells going up-left from that neighbour all equal it |
| Game.Connect4.ScanRight | src/lib.rs:95-102 | the horizontal count reaches 4 exactly when four equal cells go right |
| Game.Connect4.ScanUp | src/lib.rs:104-114 | the vertical count reaches 4 exactly when four equal cells go up |
| Game.Connect4.ScanUpRight | src/lib.rs:116-127 | the diagonal count reaches 4 exactly when four equal cells go up-right |
| Game.Connect4.ScanAntiDiagonal | src/lib.rs:129-140 | the anti-diagonal count reaches 4 exactly when the cells (row + k, col - 1 - k), k < 4, are on the board and equal the start cell |
| Game.Connect4.IsSomeoneWinning | src/lib.rs:73-88 | is_someone_winning returns the winner of the board |
| Heuristic.NoStonesNoPotential | src/evaluator.rs:40-64 | a line without the mover's stones adds nothing |
| Heuristic.ScanStep | src/evaluator.rs:41-48 | a cell that is not an opponent stone extends the line scan, counting it when it is the mover's |
| Heuristic.ScanBlocked | src/evaluator.rs:44-47 | an opponent stone in a line makes its potential 0 |
| Heuristic.ScanComplete | src/evaluator.rs:41-50 | a scan that reaches the end of a line has counted its potential |
| Heuristic.RowsScore | src/evaluator.rs:40-51 | the row pass is between 0 and 7 per row |
| Heuristic.ColumnsScore | src/evaluator.rs:53-64 | the column pass is between 0 and 6 per column |
| Heuristic.DiagonalsAt | src/evaluator.rs:67-92 | the two windows of one cell add between 0 and 8 |
| Heuristic.RowDiagonals | src/evaluator.rs:67-92 | the windows of one row add between 0 and 8 per cell |
| Heuristic.RowDiagonalsNext | src/evaluator.rs:68-91 | each cell adds its up-right window when it fits on the board, then its up-left window when it fits |
| Heuristic.DiagonalsScore | src/evaluator.rs:66-93 | the diagonal pass is between 0 and 8 per cell |
| Heuristic.LinePotential | src/evaluator.rs:31-96 | better_evaluate is never negative, and it is bounded |
| Heuristic.NoStonesRows | src/evaluator.rs:40-51 | a mover without stones gets 0 from the rows |
| Heuristic.NoStonesColumns | src/evaluator.rs:53-64 | a mover without stones gets 0 from the columns |
| Heuristic.NoStonesRowDiagonals | src/evaluator.rs:67-92 | a mover without stones gets 0 from one row's windows |
| Heuristic.NoStonesDiagonals | src/evaluator.rs:66-93 | a mover without stones gets 0 from all windows |
| Heuristic.NoStonesNoLinePotential | src/evaluator.rs:31-96 | better_evaluate is 0 when the player to move has no stone |
| Heuristic.StaticScore | src/evaluator.rs:7-29 | evaluate_board is 100 when the winner is the mover, -100 when it is the other player, better_evaluate when nobody has won, and lies in [-100, 420] |
| Heuristic.NegativeMeansLost | src/evaluator.rs:7-29 | evaluate_board is negative exactly when the other player has won |
| Heuristic.EmptyBoardScoresZero | src/evaluator.rs:7-29 | evaluate_board on the empty board is 0 |
| Search.BestOfColumnsGrows | src/evaluator.rs:124-137 | taking more columns into account never lowers the best value |
| Search.SearchValueInWindow | src/evaluator.rs:117-138 | the search result and the negamax value agree once clamped to the window, and at a non-leaf the result lies in [alpha, beta] |
| Search.TracksInitially | src/evaluator.rs:124 | before any column the loop's alpha is the clamped best of no columns |
| Search.FailHardStep | src/evaluator.rs:126-133 | one child either reaches beta, so the best reaches beta, or raises alpha to max(alpha, value), which tracks the new best |
| Search.PlayedColumnStep | src/evaluator.rs:125-133 | a playable column's negated child search gives a cutoff or the next alpha, as fail-hard requires |
| Search.SkippedColumnStep | src/evaluator.rs:125 | an unplayable column leaves the best value unchanged |
| Search.CutoffValue | src/evaluator.rs:128-130 | once the best reaches beta, returning beta is the clamped value of the node |
| Search.ExhaustedValue | src/evaluator.rs:137 | after the last column, the tracked alpha is the clamped value of the node |
| Search.ChoiceStep | src/evaluator.rs:102-111 | one column of find_best_move keeps the choice state: skipped when unplayable, taken on a strictly better value, passed over otherwise |
| Search.ChoiceComplete | src/evaluator.rs:98-115 | after all columns the choice is 8 exactly when no playable column beats -1000, and otherwise the lowest playable column of maximal value |
| Search.RootValueBounds | src/evaluator.rs:104 | every move value of find_best_move lies in [-1000, 1000] |
| Evaluator.EvaluateBoard | src/evaluator.rs:7-29 | the method computes the static score of the game's position |
| Evaluator.BetterEvaluate | src/evaluator.rs:31-96 | the method computes the line potential of the game's position |
| Evaluator.RowPotentials | src/evaluator.rs:40-51 | the row pass sums the row potentials |
| Evaluator.RowPotential | src/evaluator.rs:41-50 | one row's scan yields its potential |
| Evaluator.ColumnPotentials | src/evaluator.rs:53-64 | the column pass sums the column potentials |
| Evaluator.ColumnPotential | src/evaluator.rs:54-63 | one column's scan yields its potential |
| Evaluator.DiagonalPotentials | src/evaluator.rs:66-93 | the diagonal pass sums the window potentials of every row |
| Evaluator.RowDiagonalPotentials | src/evaluator.rs:67-92 | one row of the diagonal pass sums the potentials of its on-board windows |
| Evaluator.UpRightPotential | src/evaluator.rs:68-79 | the up-right scan yields the window's potential |
| Evaluator.UpLeftPotential | src/evaluator.rs:80-91 | the up-left scan yields the window's potential |
| Evaluator.AlphaBetaPruning | src/evaluator.rs:117-138 | the static score at a leaf, the negamax value clamped to [alpha, beta] elsewhere, with the board, turn and history restored |
| Evaluator.SearchColumns | src/evaluator.rs:124-137 | the column loop returns the best negated child value clamped to [alpha, beta] and restores the game |
| Evaluator.ColumnStep | src/evaluator.rs:125-133 | one column of the loop either cuts off at beta, which is then the node's clamped value, or gives the next alpha tracking the best so far |
| Evaluator.SearchColumn | src/evaluator.rs:125-127 | play, search one level down with the negated window, undo: playable exactly when the drop succeeds, the value is the negated child result, and the game is restored |
| Evaluator.FindBestMove | src/evaluator.rs:98-115 | 8 exactly when no playable column scores above -1000, else the lowest playable column of maximal score; the game is restored |

## Left out

- The `Display` implementations, `src/player.rs` beyond its two-valued enum (modelled as `Rules.Player`), `src/main.rs` and `src/server.rs` are not part of this model. They are text output, a console demo and HTTP and session plumbing.
- `get_size` and `get_board` are plain field reads. The model reads the `size` and `board` fields directly.
- The `println!` in `find_best_move` is output only and is left out.
- `is_draw`, `play_minimax`, `evaluate_position` and `get_board().s()` are called elsewhere but defined nowhere in the code. They are not part of this model.
- Game.Connect4.GetTurn, Game.Connect4.GetCell and Game.Connect4.Undo model accessors that `src/lib.rs` does not define. Their contracts are assumptions: the player to move; Some(colour) for a filled cell on the board and None otherwise; and removal of the top stone of the last column played, with the turn flipped back.
- Game.Connect4.Undo returns EmptyHistory instead of an error value; the `unwrap` after it in the search never meets it, because a move was just played.
- The `history` field of `Game.Connect4` is an addition that `undo` needs. The source struct has only `board`, `size` and `turn`.
- Integers are unbounded. `u32` and `i32` widths are not modelled, nor is the overflow of `depth - 1` at the smallest `i32`. Columns are `int`, as the source mixes `i32` and `u32` for them.
- Evaluator.AlphaBetaPruning: requires alpha < beta. Every call in the source meets this: the root window is (-1000, 1000), and negating and swapping a window keeps it non-empty. With alpha >= beta the clamped value is not defined.
- Evaluator.EvaluateBoard: the two loops around the body return on their first iteration. Their trailing `0` is reached only for a board of width or height 0, which the fixed 6x7 size rules out. So the loops are not repeated.
- Evaluator.FindBestMove and Evaluator.AlphaBetaPruning state the order in which columns are tried, and the skipping of the rest after a cutoff, only through the loop structure and the final value. No separate count of the columns visited is proved.
