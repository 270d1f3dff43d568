# Tic-tac-toe engine of RLTicTacToe, modelled in Dafny

The engine has two parts.

The game manager (`TicTacToeManager`) owns a square board of `size * size`
cells. Each cell holds -1 (nought), 0 (empty) or 1 (cross). The manager also
keeps whose turn it is, the list of cells each side has played, in move
order, and the number of marks in a row that wins (`pieces_to_win`, which
defaults to the board side).

- It plays and takes back moves in place.
- It lists the empty cells.
- It decides whether the side that just moved has `pieces_to_win` marks in a
  row. From each of that side's cells it probes eight directions, and it
  checks the borders before every step.

The adversary (`Adversary`) runs a depth-limited negamax search with
fail-hard alpha-beta pruning on the same manager. It makes every move, searches
the position, and unmakes the move again. At the root it picks the first move
whose evaluation is strictly the highest.

The project is layered:

- `grid.dfy` (module `Grid`): row-major coordinates. It proves that a checked
  step of `(dx, dy)` moves the flat index by `dx + dy * size` and never wraps
  across a row edge.
- `board.dfy` (module `Boards`): the board object. It has a side `size` and a
  cell buffer, and `CreateBoard` zero-fills the buffer.
- `game_state.dfy` (module `GameState`): the manager's state as a value
  (`Game`) and the pure meaning of each operation.
  - The history invariant `Consistent`: `crosses` and `noughts` list exactly
    the cells holding 1 and -1, with no repeats, and crosses have moved once
    more than noughts exactly when it is noughts' turn.
  - The win predicate `HasWon`.
  - The make/unmake round trip.
- `negamax.dfy` (module `Negamax`): search scores, which are an integer or one
  of the float infinities. `AlphaBeta` is the search exactly as it runs,
  cutoffs included. `Minimax` is the same recurrence without pruning. The
  module proves that the two agree inside every window (`alpha <= beta`), and
  exactly with the full window. It also proves that the fail-hard move loop
  lands inside the window, and it characterises the root's choice.
- `tictactoe.dfy` (module `TicTacToe`): the two classes.
  - The manager's methods update its fields and its board's array in place.
    Each is proved against the matching `GameState` function of its state
    `State()`.
  - `Adversary.Search` is proved to return `AlphaBeta` of the position it was
    called on, and to leave the manager exactly as it found it.

Scores follow the code's sign convention. A won position is worth
`1 + depth`, counted for the side that just moved; it is positive only
while the depth is not negative. The move loop negates each child's value, and `search_root` takes the children's values
without negating them. The model keeps this recursion as written and claims
nothing about optimal play.

The search ends because every level of recursion fills one more empty cell.
The depth alone would not stop it: `search_root(0)` calls `search(-1)`, whose
depth never reaches 0.

## Model

| member | source | states |
|---|---|---|
| TicTacToe.TicTacToeManager.constructor | src/tictactoe.py:5-12 | starts with empty histories and crosses to move; a missing or zero `pieces_to_win` becomes the board side; the new manager reports no win, and over an empty board its history invariant holds |
| GameState.NewGame | src/tictactoe.py:5-12 | a manager over an empty board satisfies the history invariant and has no winner |
| Boards.Board.constructor | src/tictactoe.py:5 | `Board(size)`: a fresh buffer of `size * size` cells, all 0 |
| Boards.Board.CreateBoard | src/tictactoe.py:14-15 | every cell of the board's buffer becomes 0 |
| TicTacToe.TicTacToeManager.ResetBoard | src/tictactoe.py:14-15 | empties every cell and leaves the turn and both histories as they were |
| GameState.ResetKeepsStaleHistory | src/tictactoe.py:14-15 | after one move and a reset, the histories no longer match the board, and the stale history reports a win on an empty board |
| TicTacToe.TicTacToeManager.MakeMove | src/tictactoe.py:17-23 | the new state is `GameState.MakeMove` of the old one |
| GameState.MakeMove | src/tictactoe.py:17-23 | the value of `make_move`: the mover's mark at the cell, the cell appended to the mover's history, the turn negated; the result is again a well-formed state (marks in {-1, 0, 1}, history cells on the board) |
| GameState.MakeMoveEffect | src/tictactoe.py:17-23 | a move writes the mover's mark at the cell and nowhere else, appends the cell to the mover's history only, and negates the turn |
| GameState.MakeMovePreservesConsistent | src/tictactoe.py:17-23 | a move on an empty cell keeps the history invariant |
| TicTacToe.TicTacToeManager.UnmakeMove | src/tictactoe.py:25-31 | the new state is `GameState.UnmakeMove` of the old one |
| GameState.UnmakeMove | src/tictactoe.py:25-31 | the value of `unmake_move`: the cell removed from the last mover's history, cleared on the board, the turn negated back; the result is again a well-formed state |
| GameState.RemoveFirst | src/tictactoe.py:27-29 | `list.remove` shortens the list by one and adds no element |
| GameState.RemoveFirstIsFirst | src/tictactoe.py:27-29 | `list.remove` cuts out the first position holding the element and keeps every other element in its order |
| GameState.RemoveFirstMultiset | src/tictactoe.py:27-29 | `list.remove` takes exactly one occurrence of the element out of the list's multiset |
| GameState.RemoveFirstOfAppended | src/tictactoe.py:19-29 | removing a freshly appended element that was not in the list before gives back the list before the append |
| GameState.UnmakeMovePreservesConsistent | src/tictactoe.py:25-31 | taking back any cell of the last mover's history keeps the history invariant |
| GameState.MakeUnmakeRoundTrip | src/tictactoe.py:17-31 | under the history invariant, making and then unmaking a move on an empty cell restores board, turn and both histories exactly |
| TicTacToe.TicTacToeManager.FindLegalMoves | src/tictactoe.py:33-39 | the loop's result is `LegalMoves` of the current state |
| GameState.IndicesOfSpec | src/tictactoe.py:33-39 | the list the loop builds holds exactly the indices whose value matches, in strictly ascending order |
| GameState.LegalMoves | src/tictactoe.py:33-39 | the legal moves are exactly the empty cells: each is an in-range cell holding 0, every cell holding 0 is listed, and the list is strictly ascending |
| GameState.AscendingDistinct | src/tictactoe.py:33-39 | a strictly ascending list of moves has no repeats |
| GameState.IndicesPartition | src/tictactoe.py:33-39 | every cell is empty, a cross or a nought, so the three index lists together have the board's length |
| GameState.LegalMovesCount | src/tictactoe.py:33-39 | under the history invariant, the number of legal moves is the cell count minus the pieces played |
| GameState.HistoryIsIndices | src/tictactoe.py:19-21 | a repeat-free history that lists exactly the cells holding its side's mark is as long as the list of those cells |
| TicTacToe.TicTacToeManager.CheckBorders | src/tictactoe.py:73-75 | true exactly when one step in the direction stays on the grid; the neighbour's flat index is then in range, one column and one row away as asked |
| Grid.IdxCoords | src/tictactoe.py:73-75 | the flat index of an on-grid column and row is in range and has that column and row |
| Grid.Neighbour | src/tictactoe.py:60-63 | a step that `check_borders` allows lands at `cell + dx + dy * size`, in range and without wrapping |
| Grid.StepIndex | src/tictactoe.py:63 | step `i` of a direction, when on the grid, is at flat index `cell + (dx + dy * size) * i` |
| TicTacToe.TicTacToeManager.CheckWinAtCell | src/tictactoe.py:49-71 | returns 1 exactly when in some direction the next `pieces_to_win - 1` steps are on the grid and hold the cell's value, and 0 otherwise; no board read leaves the buffer |
| TicTacToe.TicTacToeManager.CheckWin | src/tictactoe.py:41-47 | returns 1 exactly when some cell of the side that just moved wins, and 0 otherwise |
| GameState.SinglePieceWins | src/tictactoe.py:41-71 | with `pieces_to_win <= 1`, any non-empty history of the side that just moved wins |
| GameState.DiagonalWins | src/tictactoe.py:41-71 | crosses on 0, 4 and 8 and noughts on 1 and 2 of a 3x3 board make a win |
| GameState.MakeMoveFillsCell | src/tictactoe.py:95-98 | a move on an empty cell leaves one empty cell fewer, which is what bounds the search |
| GameState.TryMove | src/tictactoe.py:95-100 | before each child search: the child position keeps the invariant, has fewer empty cells, and unmaking the move returns to the parent |
| TicTacToe.Adversary.constructor | src/tictactoe.py:79-80 | the adversary works on the given manager |
| TicTacToe.Adversary.Search | src/tictactoe.py:82-108 | returns `AlphaBeta` of the entry position, and board, turn and histories are identical on return |
| TicTacToe.Adversary.SearchMoves | src/tictactoe.py:95-108 | the move loop of `search`: returns `AlphaBetaLoop` of the entry position and its moves, and leaves board, turn and histories as they were |
| TicTacToe.Adversary.SearchChild | src/tictactoe.py:95-100 | make, search and unmake: returns the search value of the position after the move and restores the manager |
| Negamax.AlphaBeta | src/tictactoe.py:82-108 | `search` on a position, defined by its three early returns and its move loop; fail-hard: the result is an integer or one of the window's bounds, never another infinity |
| Negamax.AlphaBetaLoop | src/tictactoe.py:95-108 | the move loop of `search` over the moves not yet tried; whatever the children return, its result is an integer, its current `alpha` or `beta` |
| Negamax.NegClamp | src/tictactoe.py:98 | negating a clamped score is clamping the negated score to the negated, swapped window |
| Negamax.LoopStep | src/tictactoe.py:98-106 | one iteration of the move loop on scores: a cutoff gives `beta`, otherwise the raised `alpha` stays in the window and carries the running maximum |
| Negamax.NegatedWindow | src/tictactoe.py:98 | scores that agree inside the negated, swapped window agree inside the original window once negated |
| Negamax.ChildAgrees | src/tictactoe.py:98 | the negated child search with the negated, swapped window agrees with the negated unpruned child value inside the parent's window |
| Negamax.FirstChild | src/tictactoe.py:95-106 | the first move's pruned and unpruned values agree inside the window, and both loops continue with the rest of the moves |
| Negamax.AlphaBetaEntry | src/tictactoe.py:83-95 | an unfolding of `AlphaBeta`: past the depth, win and no-move returns, the search is its move loop over the legal moves, all of them empty cells |
| Negamax.AlphaBetaLoopStep | src/tictactoe.py:95-106 | an unfolding of `AlphaBetaLoop`: one turn of the move loop cuts off at `beta` when the child's negated value reaches it, and otherwise continues with the rest of the moves and the raised `alpha` |
| Negamax.AlphaBetaMatchesMinimax | src/tictactoe.py:82-108 | for `alpha <= beta`, the pruned search clamped to the window equals the unpruned negamax value clamped to it |
| Negamax.AlphaBetaLoopMatches | src/tictactoe.py:95-108 | the pruned move loop returns the maximum of `alpha` and the best unpruned reply, pulled into the window |
| Negamax.AlphaBetaFullWindow | src/tictactoe.py:82 | with the default window of -inf and +inf, the search returns exactly the unpruned negamax value |
| Negamax.AlphaBetaLoopWithinWindow | src/tictactoe.py:95-108 | whatever the children return, the fail-hard loop's result lies in `[alpha, beta]` |
| Negamax.AlphaBetaWithinWindow | src/tictactoe.py:83-108 | a search that reaches its move loop returns a value in `[alpha, beta]` |
| TicTacToe.Adversary.SearchRoot | src/tictactoe.py:110-125 | returns None exactly when there is no legal move; otherwise returns the legal move whose value is strictly above every earlier move's and at least every later move's; at depth 1 returns the lowest empty cell; the manager is unchanged |
| Negamax.RootValues | src/tictactoe.py:115-118 | one value per legal move, in move order, each the full-window search one ply down |
| Negamax.FirstMaxStart | src/tictactoe.py:119-124 | the first value looked at is the first strict maximum of the values seen so far |
| Negamax.FirstMaxTakeOver | src/tictactoe.py:119-124 | a move strictly better than the best so far becomes the best so far |
| Negamax.FirstMaxKeep | src/tictactoe.py:119-124 | a move no better than the best so far leaves the best move in place, so ties go to the earlier move |
| Negamax.FirstMaxUnique | src/tictactoe.py:119-124 | at most one position holds the first strict maximum |
| Negamax.FirstBestUnique | src/tictactoe.py:119-124 | at most one move is the first strictly-best one |
| Negamax.DepthOneFirstMove | src/tictactoe.py:110-125 | at depth 1 every move is worth `search(0) = 0`, so the first strictly-best move is the first legal move |

## Left out

- `src/board.py` is not part of this model. The board is stubbed with only what the manager uses: the side `size`, a buffer of `size * size` cells, and `create_board`, which zero-fills that buffer in place. A fresh list would make no difference to the manager, which always reads the buffer through `board.board`.
- The default argument `Board(3)` of the manager's constructor is left out. Python builds that default once and shares it between managers. The model always takes the board as an argument.
- The board encoding (`get_uid`, in `src/board.py`) is not modelled; nothing in the engine reads it.
- `src/gui_elements.py` (pygame rendering and text layout) and `environment/tictactoe_gym/tictactoe_gym.py` (a gymnasium adapter with random sampling and console output) are left out. They are user interface and integration code around the engine.
- TicTacToe.TicTacToeManager.MakeMove: requires `0 <= cell < size * size`. A negative Python index would address a cell from the end of the list, and an index past the end would raise `IndexError` after the append. Neither case is modelled.
- TicTacToe.TicTacToeManager.UnmakeMove: requires the cell to be in the last mover's history. `list.remove` raises `ValueError` otherwise.
- TicTacToe.Adversary.Search: requires the history invariant, which every sequence of moves on empty cells, starting from a new manager, keeps. After `reset_board` with a non-empty history the invariant fails (see `GameState.ResetKeepsStaleHistory`). Under a broken invariant the search can unmake a different occurrence of a cell than it made, so that case is not covered.
- TicTacToe.Adversary.SearchRoot: requires the history invariant, as `Search` does. The gym adapter calls `search_root` right after `reset_board` (environment/tictactoe_gym/tictactoe_gym.py:23-26), so every episode after the first starts from the stale-history state this contract does not cover.
- The constructor performs no configuration validation, as in the code. Any `pieces_to_win` and any board side are accepted. Only a missing or zero `pieces_to_win` is replaced by the board side.
- Game-theoretic optimality is not claimed. The model states what the search computes and proves it sound against its unpruned recurrence, in the code's own sign convention.
- Float infinities are modelled by the `Score` datatype (`NegInf`, `Fin`, `PosInf`) with IEEE ordering and negation. No other floating point occurs.
- Termination is argued by the number of empty cells rather than by the depth, because a negative depth only stops on a won or full board.

## Notes on the reset

`reset_board` only delegates to `create_board`. The cells become 0, but `crosses`, `noughts` and `turn` keep their old values. The model follows the code, and `GameState.ResetKeepsStaleHistory` shows a consequence: after one move and a reset, `check_win` reports a win on an empty 3x3 board.
