/** The board the game manager owns: a side length and a flat row-major
    buffer of `size * size` cells, each -1 (nought), 0 (empty) or 1 (cross).
    Only the part the manager relies on is modelled. */
module Boards {

  class Board {
    const size: nat
    const board: array<int>

    ghost predicate Valid()
      reads board
    {
      board.Length == size * size
      && forall i :: 0 <= i < board.Length ==> -1 <= board[i] <= 1
    }

    constructor (size: nat)
      ensures this.size == size && fresh(board)
      ensures Valid() && board[..] == seq(size * size, _ => 0)
    {
      this.size := size;
      board := new int[size * size];
      new;
      CreateBoard();
    }

    /** Overwrites every cell with 0, keeping the same buffer. */
    method CreateBoard()
      requires board.Length == size * size
      modifies board
      ensures Valid() && board[..] == seq(size * size, _ => 0)
    {
      for i := 0 to board.Length
        invariant forall j :: 0 <= j < i ==> board[j] == 0
      {
        board[i] := 0;
      }
    }
  }
}
