/** The state the tic-tac-toe manager keeps, as a value: the board cells,
    whose turn it is, the two per-side move histories and the number of
    marks in a row that wins. The manager class updates these fields in
    place; each of its methods is specified by a function of this module. */
module GameState {
  import opened Grid

  datatype Game = Game(
    size: nat,
    cells: seq<int>,       // row-major, size * size cells in {-1, 0, 1}
    turn: int,             // 1: crosses to move, -1: noughts to move
    crosses: seq<int>,     // cells crosses placed, in move order
    noughts: seq<int>,     // cells noughts placed, in move order
    piecesToWin: int)

  /** The eight probe directions `(dx, dy)`, in the order the win check tries them. */
  const Directions: seq<(int, int)> :=
    [(-1, -1), (0, -1), (1, -1), (-1, 0), (1, 0), (-1, 1), (0, 1), (1, 1)]

  ghost predicate InRange(s: seq<int>, n: int) {
    forall x :: x in s ==> 0 <= x < n
  }

  /** What every reachable manager state satisfies, however its history got there. */
  ghost predicate WellFormed(g: Game) {
    |g.cells| == g.size * g.size
    && (g.turn == 1 || g.turn == -1)
    && (forall i :: 0 <= i < |g.cells| ==> -1 <= g.cells[i] <= 1)
    && InRange(g.crosses, |g.cells|)
    && InRange(g.noughts, |g.cells|)
  }

  ghost predicate Distinct(s: seq<int>) {
    forall x :: multiset(s)[x] <= 1
  }

  /** The history lists agree with the board: crosses lists exactly the cells
      holding 1, noughts exactly those holding -1, each once, and crosses is
      one move ahead exactly when noughts are to move. */
  ghost predicate Consistent(g: Game) {
    WellFormed(g)
    && Distinct(g.crosses) && Distinct(g.noughts)
    && (forall i :: 0 <= i < |g.cells| ==>
          (g.cells[i] == 1 <==> i in g.crosses) && (g.cells[i] == -1 <==> i in g.noughts))
    && |g.crosses| == |g.noughts| + (if g.turn == 1 then 0 else 1)
  }

  /** A manager made over an empty board. */
  function NewGame(size: nat, piecesToWin: int): (g: Game)
    ensures Consistent(g) && !HasWon(g)
    ensures g.turn == 1 && g.crosses == [] && g.noughts == []
    ensures forall i :: 0 <= i < |g.cells| ==> g.cells[i] == 0
  {
    Game(size, seq(size * size, _ => 0), 1, [], [], piecesToWin)
  }

  // ---------------------------------------------------------------------
  // make_move / unmake_move
  // ---------------------------------------------------------------------

  /** `make_move`: the mover's mark goes to `cell`, `cell` is appended to the
      mover's history, and the turn passes. */
  function MakeMove(g: Game, cell: int): (r: Game)
    requires WellFormed(g) && 0 <= cell < |g.cells|
    ensures WellFormed(r)
  {
    if g.turn == 1 then
      g.(crosses := g.crosses + [cell], cells := g.cells[cell := g.turn], turn := -g.turn)
    else
      g.(noughts := g.noughts + [cell], cells := g.cells[cell := g.turn], turn := -g.turn)
  }

  /** What one move changes: the mover's mark lands on `cell` and on no other
      cell, `cell` is appended to the mover's history only, and the turn is
      negated; the board size and the winning length stay. */
  lemma MakeMoveEffect(g: Game, cell: int)
    requires WellFormed(g) && 0 <= cell < |g.cells|
    ensures var r := MakeMove(g, cell);
            |r.cells| == |g.cells| && r.cells[cell] == g.turn
            && (forall i :: 0 <= i < |g.cells| && i != cell ==> r.cells[i] == g.cells[i])
            && r.turn == -g.turn
            && (g.turn == 1 ==> r.crosses == g.crosses + [cell] && r.noughts == g.noughts)
            && (g.turn == -1 ==> r.noughts == g.noughts + [cell] && r.crosses == g.crosses)
            && r.size == g.size && r.piecesToWin == g.piecesToWin
  {
  }

  /** The history list from which `unmake_move` removes: that of the side
      that made the last move. */
  function LastMover(g: Game): seq<int> {
    if g.turn == -1 then g.crosses else g.noughts
  }

  /** `unmake_move`: removes `cell` from the last mover's history (first
      occurrence, as `list.remove` does), clears it on the board, and hands
      the turn back. */
  function UnmakeMove(g: Game, cell: int): (r: Game)
    requires WellFormed(g) && cell in LastMover(g)
    ensures WellFormed(r)
  {
    if g.turn == -1 then
      g.(crosses := RemoveFirst(g.crosses, cell), cells := g.cells[cell := 0], turn := -g.turn)
    else
      g.(noughts := RemoveFirst(g.noughts, cell), cells := g.cells[cell := 0], turn := -g.turn)
  }

  /** Python's `list.remove`: drops the first occurrence of `x`. */
  function RemoveFirst(s: seq<int>, x: int): (r: seq<int>)
    requires x in s
    ensures |r| == |s| - 1
    ensures forall y :: y in r ==> y in s
  {
    assert s == [s[0]] + s[1..];
    if s[0] == x then s[1..] else [s[0]] + RemoveFirst(s[1..], x)
  }

  /** `list.remove` takes out the first occurrence of `x` and keeps every
      other element in its order. */
  lemma {:induction false} RemoveFirstIsFirst(s: seq<int>, x: int) returns (k: int)
    requires x in s
    ensures 0 <= k < |s| && s[k] == x && x !in s[..k]
    ensures RemoveFirst(s, x) == s[..k] + s[k + 1..]
  {
    if s[0] == x {
      k := 0;
      assert s[..k] + s[k + 1..] == s[1..];
    } else {
      RemoveFirstCons(s, x);
      var k' := RemoveFirstIsFirst(s[1..], x);
      k := k' + 1;
      Splice(s, k);
    }
  }

  /** Past a head that is not `x`, `list.remove` keeps the head. */
  lemma RemoveFirstCons(s: seq<int>, x: int)
    requires x in s && s[0] != x
    ensures x in s[1..] && RemoveFirst(s, x) == [s[0]] + RemoveFirst(s[1..], x)
  {
    assert s == [s[0]] + s[1..];
  }

  /** Cutting out position `k > 0` commutes with taking off the head. */
  lemma Splice(s: seq<int>, k: int)
    requires 0 < k < |s|
    ensures s[..k] == [s[0]] + s[1..][..k - 1]
    ensures s[..k] + s[k + 1..] == [s[0]] + (s[1..][..k - 1] + s[1..][k..])
  {
    assert s[k + 1..] == s[1..][k..];
  }

  /** `list.remove` takes exactly one copy of `x` out of the list's multiset. */
  lemma {:induction false} RemoveFirstMultiset(s: seq<int>, x: int)
    requires x in s
    ensures multiset(RemoveFirst(s, x)) == multiset(s) - multiset{x}
  {
    assert s == [s[0]] + s[1..];
    if s[0] != x {
      RemoveFirstCons(s, x);
      RemoveFirstMultiset(s[1..], x);
    }
  }

  lemma {:induction false} RemoveFirstOfAppended(s: seq<int>, x: int)
    requires x !in s
    ensures RemoveFirst(s + [x], x) == s
  {
    if s != [] {
      assert (s + [x])[1..] == s[1..] + [x];
      RemoveFirstOfAppended(s[1..], x);
      assert s == [s[0]] + s[1..];
    }
  }

  lemma MakeMovePreservesConsistent(g: Game, cell: int)
    requires Consistent(g) && 0 <= cell < |g.cells| && g.cells[cell] == 0
    ensures Consistent(MakeMove(g, cell))
  {
    var r := MakeMove(g, cell);
    assert cell !in g.crosses && cell !in g.noughts;
    forall i | 0 <= i < |r.cells|
      ensures (r.cells[i] == 1 <==> i in r.crosses) && (r.cells[i] == -1 <==> i in r.noughts)
    {
      if i != cell {
        assert (i in r.crosses <==> i in g.crosses) && (i in r.noughts <==> i in g.noughts);
      }
    }
  }

  lemma UnmakeMovePreservesConsistent(g: Game, cell: int)
    requires Consistent(g) && cell in LastMover(g)
    ensures Consistent(UnmakeMove(g, cell))
  {
    var r := UnmakeMove(g, cell);
    var s := LastMover(g);
    var t := RemoveFirst(s, cell);
    RemoveFirstMultiset(s, cell);
    assert multiset(t)[cell] == 0;
    forall y | y != cell
      ensures (y in t <==> y in s)
    {
      assert multiset(t)[y] == multiset(s)[y];
    }
    forall i | 0 <= i < |r.cells|
      ensures (r.cells[i] == 1 <==> i in r.crosses) && (r.cells[i] == -1 <==> i in r.noughts)
    {
    }
  }

  /** Undoing the move just made restores every field exactly. */
  lemma MakeUnmakeRoundTrip(g: Game, cell: int)
    requires Consistent(g) && 0 <= cell < |g.cells| && g.cells[cell] == 0
    ensures cell in LastMover(MakeMove(g, cell))
    ensures UnmakeMove(MakeMove(g, cell), cell) == g
  {
    var m := MakeMove(g, cell);
    assert m.cells[cell := 0] == g.cells;
    if g.turn == 1 {
      assert cell !in g.crosses;
      RemoveFirstOfAppended(g.crosses, cell);
    } else {
      assert cell !in g.noughts;
      RemoveFirstOfAppended(g.noughts, cell);
    }
  }

  /** Everything the search needs before it tries `cell`: the position after
      the move is consistent, has one empty cell fewer, and unmaking the move
      returns to `g`. */
  lemma TryMove(g: Game, cell: int)
    requires Consistent(g) && 0 <= cell < |g.cells| && g.cells[cell] == 0
    ensures Consistent(MakeMove(g, cell))
    ensures EmptyCount(MakeMove(g, cell)) < EmptyCount(g)
    ensures cell in LastMover(MakeMove(g, cell)) && UnmakeMove(MakeMove(g, cell), cell) == g
  {
    MakeMovePreservesConsistent(g, cell);
    MakeMoveFillsCell(g, cell);
    MakeUnmakeRoundTrip(g, cell);
  }

  // ---------------------------------------------------------------------
  // find_legal_moves
  // ---------------------------------------------------------------------

  /** The indices of `s` holding `v`, in ascending order (the loop of
      `find_legal_moves`, one element at a time). */
  function IndicesOf(s: seq<int>, v: int): seq<int>
  {
    if s == [] then []
    else
      var n := |s| - 1;
      var p := IndicesOf(s[..n], v);
      p + (if s[n] == v then [n] else [])
  }

  /** `IndicesOf(s, v)` holds exactly the indices of `s` whose value is `v`,
      strictly ascending. */
  lemma {:induction false} IndicesOfSpec(s: seq<int>, v: int)
    ensures forall j :: 0 <= j < |IndicesOf(s, v)| ==> 0 <= IndicesOf(s, v)[j] < |s| && s[IndicesOf(s, v)[j]] == v
    ensures forall i :: 0 <= i < |s| && s[i] == v ==> i in IndicesOf(s, v)
    ensures forall j, k :: 0 <= j < k < |IndicesOf(s, v)| ==> IndicesOf(s, v)[j] < IndicesOf(s, v)[k]
  {
    if s != [] {
      var n := |s| - 1;
      IndicesOfSpec(s[..n], v);
      var p := IndicesOf(s[..n], v);
      var r := IndicesOf(s, v);
      assert r == p + (if s[n] == v then [n] else []);
      forall j | 0 <= j < |r|
        ensures 0 <= r[j] < |s| && s[r[j]] == v
      {
        if j < |p| {
          assert r[j] == p[j] && s[..n][p[j]] == s[p[j]];
        }
      }
      forall i | 0 <= i < |s| && s[i] == v
        ensures i in r
      {
        if i < n {
          assert s[..n][i] == s[i];
          var j :| 0 <= j < |p| && p[j] == i;
          assert r[j] == i;
        } else {
          assert r[|r| - 1] == n;
        }
      }
    }
  }

  /** `find_legal_moves`: the empty cells, each once, lowest index first. */
  function LegalMoves(g: Game): (moves: seq<int>)
    ensures forall j :: 0 <= j < |moves| ==> 0 <= moves[j] < |g.cells| && g.cells[moves[j]] == 0
    ensures forall i :: 0 <= i < |g.cells| && g.cells[i] == 0 ==> i in moves
    ensures forall j, k :: 0 <= j < k < |moves| ==> moves[j] < moves[k]
  {
    IndicesOfSpec(g.cells, 0);
    IndicesOf(g.cells, 0)
  }

  /** A strictly ascending sequence holds each value at most once. */
  lemma {:induction false} AscendingDistinct(s: seq<int>)
    requires forall j, k :: 0 <= j < k < |s| ==> s[j] < s[k]
    ensures Distinct(s)
  {
    if s != [] {
      var n := |s| - 1;
      AscendingDistinct(s[..n]);
      assert s == s[..n] + [s[n]];
      assert s[n] !in s[..n];
    }
  }

  /** Every cell of a well-formed board is empty, a cross or a nought. */
  lemma {:induction false} IndicesPartition(s: seq<int>)
    requires forall i :: 0 <= i < |s| ==> -1 <= s[i] <= 1
    ensures |IndicesOf(s, 0)| + |IndicesOf(s, 1)| + |IndicesOf(s, -1)| == |s|
  {
    if s != [] {
      IndicesPartition(s[..|s| - 1]);
    }
  }

  lemma SameElementsSameLength(a: seq<int>, b: seq<int>)
    requires Distinct(a) && Distinct(b)
    requires forall x :: x in a <==> x in b
    ensures |a| == |b|
  {
    forall x
      ensures multiset(a)[x] == multiset(b)[x]
    {
      assert (x in a <==> multiset(a)[x] > 0) && (x in b <==> multiset(b)[x] > 0);
    }
    assert multiset(a) == multiset(b);
    assert |multiset(a)| == |a| && |multiset(b)| == |b|;
  }

  /** There are as many legal moves as cells not yet in either history. */
  lemma LegalMovesCount(g: Game)
    requires Consistent(g)
    ensures |LegalMoves(g)| == |g.cells| - |g.crosses| - |g.noughts|
  {
    IndicesPartition(g.cells);
    HistoryIsIndices(g.cells, g.crosses, 1);
    HistoryIsIndices(g.cells, g.noughts, -1);
  }

  /** A repeat-free history listing exactly the cells holding `v` is as long
      as the list of those cells. */
  lemma HistoryIsIndices(cells: seq<int>, h: seq<int>, v: int)
    requires Distinct(h) && InRange(h, |cells|)
    requires forall i :: 0 <= i < |cells| ==> (cells[i] == v <==> i in h)
    ensures |h| == |IndicesOf(cells, v)|
  {
    IndicesOfSpec(cells, v);
    var xs := IndicesOf(cells, v);
    forall x
      ensures x in h <==> x in xs
    {
      if x in h {
        assert 0 <= x < |cells|;
      }
      if x in xs {
        var j :| 0 <= j < |xs| && xs[j] == x;
      }
    }
    AscendingDistinct(xs);
    SameElementsSameLength(h, xs);
  }

  /** The number of empty cells: it falls by one with every move on an empty cell. */
  function EmptyCount(g: Game): nat {
    multiset(g.cells)[0]
  }

  lemma MakeMoveFillsCell(g: Game, cell: int)
    requires WellFormed(g) && 0 <= cell < |g.cells| && g.cells[cell] == 0
    ensures EmptyCount(MakeMove(g, cell)) == EmptyCount(g) - 1
  {
    assert MakeMove(g, cell).cells == g.cells[cell := g.turn];
    FillOne(g.cells, cell, g.turn);
  }

  /** Overwriting one 0 with a non-zero value removes one 0 from the multiset. */
  lemma FillOne(s: seq<int>, i: int, v: int)
    requires 0 <= i < |s| && s[i] == 0 && v != 0
    ensures multiset(s[i := v])[0] == multiset(s)[0] - 1
  {
    assert s == s[..i] + [0] + s[i + 1..];
    assert s[i := v] == s[..i] + [v] + s[i + 1..];
    assert multiset(s) == multiset(s[..i]) + multiset{0} + multiset(s[i + 1..]);
    assert multiset(s[i := v]) == multiset(s[..i]) + multiset{v} + multiset(s[i + 1..]);
  }

  // ---------------------------------------------------------------------
  // check_win / check_win_at_cell
  // ---------------------------------------------------------------------

  /** Step `i` of direction `d` from `cell` is on the grid and holds the
      same value as `cell`. */
  ghost predicate StepOk(g: Game, cell: int, d: (int, int), i: int)
    requires WellFormed(g) && 0 <= cell < |g.cells|
  {
    var x := Col(g.size, cell) + d.0 * i;
    var y := Row(g.size, cell) + d.1 * i;
    InGrid(g.size, x, y) && g.cells[Idx(g.size, x, y)] == g.cells[cell]
  }

  ghost predicate WinsInDirection(g: Game, cell: int, d: (int, int))
    requires WellFormed(g) && 0 <= cell < |g.cells|
  {
    forall i :: 1 <= i < g.piecesToWin ==> StepOk(g, cell, d, i)
  }

  /** `check_win_at_cell(cell) == 1`: in one of the eight directions the next
      `piecesToWin - 1` cells are on the grid and match `cell`. */
  ghost predicate WinsAt(g: Game, cell: int)
    requires WellFormed(g) && 0 <= cell < |g.cells|
  {
    exists e :: 0 <= e < |Directions| && WinsInDirection(g, cell, Directions[e])
  }

  /** `check_win() == 1`: some cell of the side that just moved wins. */
  ghost predicate HasWon(g: Game)
    requires WellFormed(g)
  {
    exists c :: c in LastMover(g) && WinsAt(g, c)
  }

  /** With one piece to win, any placed piece of the last mover wins. */
  lemma SinglePieceWins(g: Game)
    requires WellFormed(g) && g.piecesToWin <= 1 && LastMover(g) != []
    ensures HasWon(g)
  {
    var c := LastMover(g)[0];
    assert c in LastMover(g);
    assert WinsInDirection(g, c, Directions[0]);
    assert WinsAt(g, c);
  }

  /** Crosses on 0, 4, 8 and noughts on 1, 2 of a 3x3 board: the diagonal wins. */
  lemma DiagonalWins()
    ensures var g := MakeMove(MakeMove(MakeMove(MakeMove(MakeMove(NewGame(3, 3), 0), 1), 4), 2), 8);
            g.crosses == [0, 4, 8] && g.noughts == [1, 2] && HasWon(g)
  {
    var g := MakeMove(MakeMove(MakeMove(MakeMove(MakeMove(NewGame(3, 3), 0), 1), 4), 2), 8);
    assert g == Game(3, seq(9, _ => 0)[0 := 1][1 := -1][4 := 1][2 := -1][8 := 1], -1, [0, 4, 8], [1, 2], 3);
    DiagonalGameWins(g);
  }

  lemma DiagonalGameWins(g: Game)
    requires g == Game(3, seq(9, _ => 0)[0 := 1][1 := -1][4 := 1][2 := -1][8 := 1], -1, [0, 4, 8], [1, 2], 3)
    ensures HasWon(g)
  {
    assert WellFormed(g);
    assert WinsInDirection(g, 0, Directions[7]) by {
      assert StepOk(g, 0, (1, 1), 1) by { assert Idx(3, 1, 1) == 4; }
      assert StepOk(g, 0, (1, 1), 2) by { assert Idx(3, 2, 2) == 8; }
    }
    assert 0 in LastMover(g) && WinsAt(g, 0);
  }

  /** `reset_board` clears the cells but not the histories or the turn: after
      a first move and a reset, the stale history reports a win on an empty
      board (its cell and the two beside it all hold 0). */
  lemma ResetKeepsStaleHistory()
    ensures var g := MakeMove(NewGame(3, 3), 0).(cells := seq(9, _ => 0));
            WellFormed(g) && !Consistent(g) && HasWon(g)
  {
    var g := MakeMove(NewGame(3, 3), 0).(cells := seq(9, _ => 0));
    assert g == Game(3, seq(9, _ => 0), -1, [0], [], 3);
    StaleHistoryWins(g);
  }

  lemma StaleHistoryWins(g: Game)
    requires g == Game(3, seq(9, _ => 0), -1, [0], [], 3)
    ensures WellFormed(g) && !Consistent(g) && HasWon(g)
  {
    assert WellFormed(g);
    assert !Consistent(g) by { assert 0 in g.crosses && g.cells[0] == 0; }
    assert WinsInDirection(g, 0, Directions[4]) by {
      assert StepOk(g, 0, (1, 0), 1) by { assert Idx(3, 1, 0) == 1; }
      assert StepOk(g, 0, (1, 0), 2) by { assert Idx(3, 2, 0) == 2; }
    }
    assert 0 in LastMover(g) && WinsAt(g, 0);
  }
}
