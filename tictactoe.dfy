/** The game manager and the adversary. The manager owns a board and updates
    its cells, the turn and the two move histories in place; the adversary
    searches by making and unmaking moves on that one manager. Each method
    is proved against the functions of GameState and Negamax. */
module TicTacToe {
  import opened Wrappers
  import opened Grid
  import opened Boards
  import opened GameState
  import opened Negamax

  class TicTacToeManager {
    const board: Board
    var crosses: seq<int>
    var noughts: seq<int>
    var turn: int            // 1: crosses, -1: noughts
    const piecesToWin: int

    /** The manager's fields as a game value. */
    ghost function State(): Game
      reads this, board.board
    {
      Game(board.size, board.board[..], turn, crosses, noughts, piecesToWin)
    }

    ghost predicate Valid()
      reads this, board.board
    {
      WellFormed(State())
    }

    /** A missing (or zero) `piecesToWin` defaults to the board's side. */
    constructor (board: Board, piecesToWin: Option<int>)
      requires board.Valid()
      ensures this.board == board
      ensures this.piecesToWin == if piecesToWin == None || piecesToWin == Some(0) then board.size else piecesToWin.value
      ensures crosses == [] && noughts == [] && turn == 1
      ensures Valid() && !HasWon(State())
      ensures (forall i :: 0 <= i < board.board.Length ==> board.board[i] == 0) ==> Consistent(State())
    {
      var k := if piecesToWin == None || piecesToWin == Some(0) then board.size else piecesToWin.value;
      this.board := board;
      crosses := [];
      noughts := [];
      turn := 1;
      this.piecesToWin := k;
    }

    /** Empties every cell; the histories and the turn are left as they were. */
    method ResetBoard()
      requires Valid()
      modifies board.board
      ensures Valid()
      ensures State() == old(State()).(cells := seq(board.size * board.size, _ => 0))
    {
      board.CreateBoard();
    }

    method MakeMove(cell: int)
      requires Valid() && 0 <= cell < board.board.Length
      modifies this, board.board
      ensures Valid() && State() == GameState.MakeMove(old(State()), cell)
    {
      if turn == 1 {
        crosses := crosses + [cell];
      } else {
        noughts := noughts + [cell];
      }
      board.board[cell] := turn;
      turn := turn * -1;
    }

    method UnmakeMove(cell: int)
      requires Valid() && cell in LastMover(State())
      modifies this, board.board
      ensures Valid() && State() == GameState.UnmakeMove(old(State()), cell)
    {
      if turn == -1 {
        crosses := RemoveFirst(crosses, cell);
      } else {
        noughts := RemoveFirst(noughts, cell);
      }
      board.board[cell] := 0;
      turn := turn * -1;
    }

    method FindLegalMoves() returns (legalMoves: seq<int>)
      ensures legalMoves == LegalMoves(State())
    {
      legalMoves := [];
      for i := 0 to board.board.Length
        invariant legalMoves == IndicesOf(board.board[..i], 0)
      {
        assert board.board[..i + 1][..i] == board.board[..i];
        if board.board[i] == 0 {
          legalMoves := legalMoves + [i];
        }
      }
      assert board.board[..] == board.board[..board.board.Length];
    }

    /** Whether one step of `direction` from `cell` stays on the board. When
        it does, the neighbour's flat index is `cell + dx + dy * size` and it
        sits one column and one row away as asked: the step never wraps
        around an edge. */
    function CheckBorders(cell: int, direction: (int, int)): (ok: bool)
      requires 0 <= cell < board.size * board.size
      ensures ok <==> InGrid(board.size, Col(board.size, cell) + direction.0, Row(board.size, cell) + direction.1)
      ensures ok ==> var next := cell + direction.0 + direction.1 * board.size;
                     0 <= next < board.size * board.size
                     && Col(board.size, next) == Col(board.size, cell) + direction.0
                     && Row(board.size, next) == Row(board.size, cell) + direction.1
    {
      var x, y := cell % board.size, cell / board.size;
      var ok := 0 <= x + direction.0 < board.size && 0 <= y + direction.1 < board.size;
      if ok then Neighbour(board.size, cell, direction.0, direction.1); ok else ok
    }

    method CheckWinAtCell(cell: int) returns (r: int)
      requires Valid() && 0 <= cell < board.board.Length
      ensures r == if WinsAt(State(), cell) then 1 else 0
    {
      ghost var g := State();
      var size := board.size;
      var cellContent := board.board[cell];
      for d := 0 to |Directions|
        invariant forall e :: 0 <= e < d ==> !WinsInDirection(g, cell, Directions[e])
      {
        var direction := Directions[d];
        var nextCell := cell;
        var completed := true;
        var i := 1;
        while i < piecesToWin
          invariant 1 <= i && completed
          invariant 0 <= nextCell < size * size
          invariant nextCell == cell + (direction.0 + direction.1 * size) * (i - 1)
          invariant Col(size, nextCell) == Col(size, cell) + direction.0 * (i - 1)
          invariant Row(size, nextCell) == Row(size, cell) + direction.1 * (i - 1)
          invariant forall j :: 1 <= j < i ==> StepOk(g, cell, direction, j)
          decreases piecesToWin - i
        {
          assert direction.0 * (i - 1) + direction.0 == direction.0 * i;
          assert direction.1 * (i - 1) + direction.1 == direction.1 * i;
          if !CheckBorders(nextCell, direction) {
            assert !StepOk(g, cell, direction, i);
            completed := false;
            break;
          }
          ghost var previous := nextCell;
          nextCell := cell + (direction.0 + direction.1 * size) * i;
          assert nextCell == previous + direction.0 + direction.1 * size;
          StepIndex(size, cell, direction.0, direction.1, i);
          var nextCellContent := board.board[nextCell];
          if nextCellContent != cellContent {
            assert !StepOk(g, cell, direction, i);
            completed := false;
            break;
          }
          assert StepOk(g, cell, direction, i);
          i := i + 1;
        }
        if completed {
          assert WinsInDirection(g, cell, Directions[d]);
          return 1;
        }
      }
      return 0;
    }

    method CheckWin() returns (r: int)
      requires Valid()
      ensures r == if HasWon(State()) then 1 else 0
    {
      var turnList := if turn == -1 then crosses else noughts;
      for j := 0 to |turnList|
        invariant forall l :: 0 <= l < j ==> turnList[l] in turnList && !WinsAt(State(), turnList[l])
      {
        assert turnList[j] in LastMover(State());
        var finished := CheckWinAtCell(turnList[j]);
        if finished != 0 {
          return finished;
        }
      }
      return 0;
    }
  }

  class Adversary {
    const manager: TicTacToeManager

    constructor (manager: TicTacToeManager)
      ensures this.manager == manager
    {
      this.manager := manager;
    }

    /** Depth-limited negamax with fail-hard alpha-beta pruning. Every move it
        makes it unmakes before looking at the next one or returning, so the
        manager is left exactly as it was found. */
    method Search(depth: int, alpha: Score, beta: Score) returns (r: Score)
      requires manager.Valid() && Consistent(manager.State())
      modifies manager, manager.board.board
      ensures manager.Valid() && manager.State() == old(manager.State())
      ensures r == AlphaBeta(old(manager.State()), depth, alpha, beta)
      decreases EmptyCount(manager.State()), 2
    {
      ghost var g := manager.State();
      if depth == 0 {
        return Fin(0);
      }
      var win := manager.CheckWin();
      if win != 0 {
        return Fin(win + depth);
      }
      var availableMoves := manager.FindLegalMoves();
      if availableMoves == [] {
        return Fin(0);
      }
      AlphaBetaEntry(g, depth, alpha, beta);
      r := SearchMoves(depth, availableMoves, alpha, beta);
    }

    /** The move loop of `search`: tries each move in turn, with the window
        narrowed by the moves before it, and stops at the first cutoff. */
    method SearchMoves(depth: int, moves: seq<int>, alpha: Score, beta: Score) returns (r: Score)
      requires manager.Valid() && Consistent(manager.State()) && AllEmpty(manager.State(), moves)
      modifies manager, manager.board.board
      ensures manager.Valid() && manager.State() == old(manager.State())
      ensures r == AlphaBetaLoop(old(manager.State()), depth, moves, alpha, beta)
      decreases EmptyCount(manager.State()), 1
    {
      ghost var g := manager.State();
      var a := alpha;
      var rest := moves;
      while rest != []
        invariant manager.Valid() && manager.State() == g
        invariant AllEmpty(g, rest)
        invariant AlphaBetaLoop(g, depth, rest, a, beta) == AlphaBetaLoop(g, depth, moves, alpha, beta)
      {
        AlphaBetaLoopStep(g, depth, rest, a, beta);
        var evaluation := SearchChild(rest[0], depth - 1, Neg(beta), Neg(a));
        evaluation := Neg(evaluation);
        if Le(beta, evaluation) {
          return beta;
        }
        if Lt(a, evaluation) {
          a := evaluation;
        }
        rest := rest[1..];
      }
      return a;
    }

    /** Plays `cell`, searches the position that results and takes the move
        back again: what `search` and `search_root` do for every move. */
    method SearchChild(cell: int, depth: int, alpha: Score, beta: Score) returns (r: Score)
      requires manager.Valid() && Consistent(manager.State())
      requires 0 <= cell < manager.board.board.Length && manager.board.board[cell] == 0
      modifies manager, manager.board.board
      ensures manager.Valid() && manager.State() == old(manager.State())
      ensures r == AlphaBeta(GameState.MakeMove(old(manager.State()), cell), depth, alpha, beta)
      decreases EmptyCount(manager.State()), 0
    {
      ghost var g := manager.State();
      TryMove(g, cell);
      manager.MakeMove(cell);
      r := Search(depth, alpha, beta);
      manager.UnmakeMove(cell);
    }

    /** The first legal move whose full-window evaluation is strictly greater
        than that of every earlier move, or None when the board is full. */
    method SearchRoot(depth: int) returns (bestMove: Option<int>)
      requires manager.Valid() && Consistent(manager.State())
      modifies manager, manager.board.board
      ensures manager.Valid() && manager.State() == old(manager.State())
      ensures var g := old(manager.State());
              var moves := LegalMoves(g);
              (bestMove == None <==> moves == [])
              && (bestMove.Some? ==> exists k :: IsFirstBest(g, depth, moves, k) && bestMove.value == moves[k])
      ensures var moves := LegalMoves(old(manager.State()));
              depth == 1 && moves != [] ==> bestMove == Some(moves[0])
    {
      ghost var g := manager.State();
      var moves := manager.FindLegalMoves();
      var bestEval := NegInf;
      bestMove := None;
      ghost var k := 0;
      ghost var vals := RootValues(g, depth, moves);
      for i := 0 to |moves|
        invariant manager.Valid() && manager.State() == g
        invariant i == 0 ==> bestMove == None && bestEval == NegInf
        invariant i > 0 ==> FirstMax(vals, i, k) && bestMove == Some(moves[k]) && bestEval == Fin(vals[k])
      {
        var move := moves[i];
        AlphaBetaFullWindow(GameState.MakeMove(g, move), depth - 1);
        var evaluation := SearchChild(move, depth - 1, NegInf, PosInf);
        if Lt(bestEval, evaluation) {
          if i == 0 {
            FirstMaxStart(vals);
          } else {
            FirstMaxTakeOver(vals, i, k);
          }
          bestEval := evaluation;
          bestMove := Some(move);
          k := i;
        } else {
          FirstMaxKeep(vals, i, k);
        }
      }
      if moves != [] {
        assert IsFirstBest(g, depth, moves, k);
        if depth == 1 {
          DepthOneFirstMove(g, moves, k);
        }
      }
    }
  }
}
