/** What the adversary's search computes, on game values: the alpha-beta
    recursion exactly as the search runs it (fail-hard, negamax framing,
    moves in ascending index order), the plain negamax recurrence without
    pruning, and the proof that pruning never changes the value inside the
    window. */
module Negamax {
  import opened GameState

  /** A search bound or value: an integer, or one of the float infinities
      the search starts its window with. */
  datatype Score = NegInf | Fin(v: int) | PosInf

  predicate Le(a: Score, b: Score) {
    a.NegInf? || b.PosInf? || (a.Fin? && b.Fin? && a.v <= b.v)
  }

  predicate Lt(a: Score, b: Score) {
    !Le(b, a)
  }

  function Neg(a: Score): Score {
    match a
    case NegInf => PosInf
    case Fin(v) => Fin(-v)
    case PosInf => NegInf
  }

  function Max(a: Score, b: Score): Score {
    if Le(a, b) then b else a
  }

  /** `x` pulled into the window `[lo, hi]`. */
  function Clamp(x: Score, lo: Score, hi: Score): Score {
    if Le(hi, x) then hi else if Le(x, lo) then lo else x
  }

  function IntMax(a: int, b: int): int {
    if a <= b then b else a
  }

  /** `r` is an integer or one of the window's own bounds. */
  predicate FailHard(r: Score, alpha: Score, beta: Score) {
    r.Fin? || r == alpha || r == beta
  }

  ghost predicate AllEmpty(g: Game, moves: seq<int>) {
    forall j :: 0 <= j < |moves| ==> 0 <= moves[j] < |g.cells| && g.cells[moves[j]] == 0
  }

  // ---------------------------------------------------------------------
  // The search as written
  // ---------------------------------------------------------------------

  /** `search(depth, alpha, beta)`. It terminates because every level fills
      one more cell (for a negative depth, the only thing that stops it).
      Fail-hard, for any window: the only infinities it can return are the
      window's own bounds. */
  ghost function AlphaBeta(g: Game, depth: int, alpha: Score, beta: Score): (r: Score)
    requires WellFormed(g)
    ensures FailHard(r, alpha, beta)
    decreases EmptyCount(g), 1, 0
  {
    if depth == 0 then Fin(0)
    else if HasWon(g) then Fin(1 + depth)
    else if LegalMoves(g) == [] then Fin(0)
    else
      AlphaBetaLoop(g, depth, LegalMoves(g), alpha, beta)
  }

  /** The move loop of `search`, over the moves not yet tried, with the
      current `alpha`: it returns an integer, its current `alpha` or `beta`. */
  ghost function AlphaBetaLoop(g: Game, depth: int, moves: seq<int>, alpha: Score, beta: Score): (r: Score)
    requires WellFormed(g) && AllEmpty(g, moves)
    ensures FailHard(r, alpha, beta)
    decreases EmptyCount(g), 0, |moves|
  {
    if moves == [] then alpha
    else
      MakeMoveFillsCell(g, moves[0]);
      var e := Neg(AlphaBeta(MakeMove(g, moves[0]), depth - 1, Neg(beta), Neg(alpha)));
      if Le(beta, e) then beta
      else AlphaBetaLoop(g, depth, moves[1..], if Lt(alpha, e) then e else alpha, beta)
  }

  /** A search past its three early returns is its move loop over the legal
      moves, every one of which is an empty cell. */
  lemma AlphaBetaEntry(g: Game, depth: int, alpha: Score, beta: Score)
    requires WellFormed(g) && depth != 0 && !HasWon(g) && LegalMoves(g) != []
    ensures AllEmpty(g, LegalMoves(g))
    ensures AlphaBeta(g, depth, alpha, beta) == AlphaBetaLoop(g, depth, LegalMoves(g), alpha, beta)
  {
  }

  /** One turn of the move loop: cut off at `beta`, or go on with the rest
      of the moves and `alpha` raised to the child's value. */
  lemma AlphaBetaLoopStep(g: Game, depth: int, moves: seq<int>, alpha: Score, beta: Score)
    requires WellFormed(g) && AllEmpty(g, moves) && moves != []
    ensures AllEmpty(g, moves[1..])
    ensures var e := Neg(AlphaBeta(MakeMove(g, moves[0]), depth - 1, Neg(beta), Neg(alpha)));
                AlphaBetaLoop(g, depth, moves, alpha, beta)
                == if Le(beta, e) then beta else AlphaBetaLoop(g, depth, moves[1..], if Lt(alpha, e) then e else alpha, beta)
  {
  }

  // ---------------------------------------------------------------------
  // The unpruned reference
  // ---------------------------------------------------------------------

  /** The same recursion without a window: the maximum over the legal moves
      of the negated value of the position after the move. */
  ghost function Minimax(g: Game, depth: int): int
    requires WellFormed(g)
    decreases EmptyCount(g), 1, 0
  {
    if depth == 0 then 0
    else if HasWon(g) then 1 + depth
    else if LegalMoves(g) == [] then 0
    else
      BestReply(g, depth, LegalMoves(g))
  }

  ghost function BestReply(g: Game, depth: int, moves: seq<int>): int
    requires WellFormed(g) && AllEmpty(g, moves) && moves != []
    decreases EmptyCount(g), 0, |moves|
  {
    MakeMoveFillsCell(g, moves[0]);
    var w := -Minimax(MakeMove(g, moves[0]), depth - 1);
    if |moves| == 1 then w else IntMax(w, BestReply(g, depth, moves[1..]))
  }

  // ---------------------------------------------------------------------
  // Pruning is sound
  // ---------------------------------------------------------------------

  lemma NegClamp(x: Score, lo: Score, hi: Score)
    requires Le(lo, hi)
    ensures Neg(Clamp(x, lo, hi)) == Clamp(Neg(x), Neg(hi), Neg(lo))
  {
  }

  /** One iteration of the move loop, on scores alone: `e` is what the pruned
      child search gave, `w` what the unpruned one gives, and they agree
      inside the window. */
  lemma LoopStep(e: Score, w: Score, rest: Score, alpha: Score, beta: Score)
    requires Le(alpha, beta) && Clamp(e, alpha, beta) == Clamp(w, alpha, beta)
    ensures Le(beta, e) ==> Clamp(Max(alpha, Max(w, rest)), alpha, beta) == beta
    ensures !Le(beta, e) ==>
              var a := if Lt(alpha, e) then e else alpha;
              Le(a, beta) && a == Clamp(Max(alpha, w), alpha, beta)
              && Clamp(Max(a, rest), a, beta) == Clamp(Max(alpha, Max(w, rest)), alpha, beta)
  {
  }

  /** The pruned search agrees with the unpruned one inside any window
      `alpha <= beta`. */
  lemma {:induction false} AlphaBetaMatchesMinimax(g: Game, depth: int, alpha: Score, beta: Score)
    requires WellFormed(g) && Le(alpha, beta)
    ensures Clamp(AlphaBeta(g, depth, alpha, beta), alpha, beta) == Clamp(Fin(Minimax(g, depth)), alpha, beta)
    decreases EmptyCount(g), 1, 0
  {
    if depth != 0 && !HasWon(g) && LegalMoves(g) != [] {
      var moves := LegalMoves(g);
      AlphaBetaLoopMatches(g, depth, moves, alpha, beta);
    }
  }

  /** The move loop yields the running maximum of the unpruned values,
      cut to `beta` as soon as one reaches it. */
  lemma {:induction false} AlphaBetaLoopMatches(g: Game, depth: int, moves: seq<int>, alpha: Score, beta: Score)
    requires WellFormed(g) && AllEmpty(g, moves) && moves != [] && Le(alpha, beta)
    ensures AlphaBetaLoop(g, depth, moves, alpha, beta)
            == Clamp(Max(alpha, Fin(BestReply(g, depth, moves))), alpha, beta)
    decreases EmptyCount(g), 0, |moves|
  {
    var e, w := FirstChild(g, depth, moves, alpha, beta);
    var a := if Lt(alpha, e) then e else alpha;
    if |moves| == 1 {
      LoopStep(e, Fin(w), Fin(w), alpha, beta);
    } else {
      var r := BestReply(g, depth, moves[1..]);
      assert Fin(IntMax(w, r)) == Max(Fin(w), Fin(r));
      LoopStep(e, Fin(w), Fin(r), alpha, beta);
      if !Le(beta, e) {
        AlphaBetaLoopMatches(g, depth, moves[1..], a, beta);
      }
    }
  }

  /** The first iteration of the move loop: the pruned child value `e` and
      the unpruned one `w` agree inside the window, and both recursions
      continue with the remaining moves. */
  lemma {:induction false} FirstChild(g: Game, depth: int, moves: seq<int>, alpha: Score, beta: Score)
    returns (e: Score, w: int)
    requires WellFormed(g) && AllEmpty(g, moves) && moves != [] && Le(alpha, beta)
    ensures Clamp(e, alpha, beta) == Clamp(Fin(w), alpha, beta)
    ensures AlphaBetaLoop(g, depth, moves, alpha, beta)
            == if Le(beta, e) then beta
               else AlphaBetaLoop(g, depth, moves[1..], if Lt(alpha, e) then e else alpha, beta)
    ensures BestReply(g, depth, moves)
            == if |moves| == 1 then w else IntMax(w, BestReply(g, depth, moves[1..]))
    decreases EmptyCount(g), 0, |moves|, 0
  {
    MakeMoveFillsCell(g, moves[0]);
    var child := MakeMove(g, moves[0]);
    e := Neg(AlphaBeta(child, depth - 1, Neg(beta), Neg(alpha)));
    w := -Minimax(child, depth - 1);
    ChildAgrees(child, depth - 1, alpha, beta);
  }

  /** The child search's window is the parent's, negated and swapped; negating
      its result back gives the parent's view. */
  lemma ChildAgrees(child: Game, depth: int, alpha: Score, beta: Score)
    requires WellFormed(child) && Le(alpha, beta)
    ensures Clamp(Neg(AlphaBeta(child, depth, Neg(beta), Neg(alpha))), alpha, beta)
            == Clamp(Fin(-Minimax(child, depth)), alpha, beta)
    decreases EmptyCount(child), 1, 1
  {
    var c := AlphaBeta(child, depth, Neg(beta), Neg(alpha));
    var m := Minimax(child, depth);
    AlphaBetaMatchesMinimax(child, depth, Neg(beta), Neg(alpha));
    NegatedWindow(c, m, alpha, beta);
  }

  /** Scores that agree inside the negated, swapped window agree, once
      negated, inside the original one. */
  lemma NegatedWindow(c: Score, m: int, alpha: Score, beta: Score)
    requires Le(alpha, beta) && Clamp(c, Neg(beta), Neg(alpha)) == Clamp(Fin(m), Neg(beta), Neg(alpha))
    ensures Clamp(Neg(c), alpha, beta) == Clamp(Fin(-m), alpha, beta)
  {
    NegClamp(c, Neg(beta), Neg(alpha));
    NegClamp(Fin(m), Neg(beta), Neg(alpha));
  }

  /** With the full window the search returns exactly the unpruned value. */
  lemma AlphaBetaFullWindow(g: Game, depth: int)
    requires WellFormed(g)
    ensures AlphaBeta(g, depth, NegInf, PosInf) == Fin(Minimax(g, depth))
  {
    AlphaBetaMatchesMinimax(g, depth, NegInf, PosInf);
  }

  /** Fail-hard: whatever the children return, the move loop ends inside
      the window, at `beta` on a cutoff and at the running `alpha` otherwise. */
  lemma {:induction false} AlphaBetaLoopWithinWindow(g: Game, depth: int, moves: seq<int>, alpha: Score, beta: Score)
    requires WellFormed(g) && AllEmpty(g, moves) && Le(alpha, beta)
    ensures Le(alpha, AlphaBetaLoop(g, depth, moves, alpha, beta))
    ensures Le(AlphaBetaLoop(g, depth, moves, alpha, beta), beta)
    decreases |moves|
  {
    if moves != [] {
      MakeMoveFillsCell(g, moves[0]);
      var e := Neg(AlphaBeta(MakeMove(g, moves[0]), depth - 1, Neg(beta), Neg(alpha)));
      if !Le(beta, e) {
        AlphaBetaLoopWithinWindow(g, depth, moves[1..], if Lt(alpha, e) then e else alpha, beta);
      }
    }
  }

  /** A search that reaches its move loop returns a value in `[alpha, beta]`. */
  lemma AlphaBetaWithinWindow(g: Game, depth: int, alpha: Score, beta: Score)
    requires WellFormed(g) && Le(alpha, beta)
    requires depth != 0 && !HasWon(g) && LegalMoves(g) != []
    ensures Le(alpha, AlphaBeta(g, depth, alpha, beta)) && Le(AlphaBeta(g, depth, alpha, beta), beta)
  {
    AlphaBetaLoopWithinWindow(g, depth, LegalMoves(g), alpha, beta);
  }

  // ---------------------------------------------------------------------
  // The root
  // ---------------------------------------------------------------------

  /** What `search_root` sees for `move`: the full-window search one ply down. */
  ghost function RootValue(g: Game, depth: int, move: int): int
    requires WellFormed(g) && 0 <= move < |g.cells|
  {
    Minimax(MakeMove(g, move), depth - 1)
  }

  /** The values `search_root` collects, one per move, in move order. */
  ghost function RootValues(g: Game, depth: int, moves: seq<int>): (vals: seq<int>)
    requires WellFormed(g) && AllEmpty(g, moves)
    ensures |vals| == |moves|
    ensures forall j :: 0 <= j < |moves| ==> vals[j] == RootValue(g, depth, moves[j])
  {
    seq(|moves|, j requires 0 <= j < |moves| => RootValue(g, depth, moves[j]))
  }

  /** Among the first `n` values, `vals[k]` is strictly greater than every
      earlier one and at least every later one. */
  predicate FirstMax(vals: seq<int>, n: int, k: int)
    requires n <= |vals|
  {
    0 <= k < n
    && (forall j :: 0 <= j < k ==> vals[j] < vals[k])
    && (forall j :: k < j < n ==> vals[j] <= vals[k])
  }

  /** `moves[k]` is the first move of highest value. */
  ghost predicate IsFirstBest(g: Game, depth: int, moves: seq<int>, k: int)
    requires WellFormed(g) && AllEmpty(g, moves)
  {
    FirstMax(RootValues(g, depth, moves), |moves|, k)
  }

  /** The first value looked at is the best so far. */
  lemma FirstMaxStart(vals: seq<int>)
    requires vals != []
    ensures FirstMax(vals, 1, 0)
  {
  }

  /** A value strictly above the best so far takes over. */
  lemma FirstMaxTakeOver(vals: seq<int>, n: int, k: int)
    requires 0 <= n < |vals| && FirstMax(vals, n, k) && vals[k] < vals[n]
    ensures FirstMax(vals, n + 1, n)
  {
  }

  /** A value no higher than the best so far leaves it in place. */
  lemma FirstMaxKeep(vals: seq<int>, n: int, k: int)
    requires 0 <= n < |vals| && FirstMax(vals, n, k) && vals[n] <= vals[k]
    ensures FirstMax(vals, n + 1, k)
  {
  }

  /** The first strict maximum is unique. */
  lemma FirstMaxUnique(vals: seq<int>, n: int, k1: int, k2: int)
    requires n <= |vals| && FirstMax(vals, n, k1) && FirstMax(vals, n, k2)
    ensures k1 == k2
  {
    // Ground terms for the two maxima, so the quantifiers of FirstMax fire on them.
    var v1, v2 := vals[k1], vals[k2];
  }

  /** One ply down from the root every position is worth 0, so the first
      legal move is the first best. */
  lemma DepthOneFirstMove(g: Game, moves: seq<int>, k: int)
    requires WellFormed(g) && AllEmpty(g, moves) && IsFirstBest(g, 1, moves, k)
    ensures k == 0
  {
    var vals := RootValues(g, 1, moves);
    assert vals[0] == 0 == vals[k];
  }

  /** The first strictly-best move is unique. */
  lemma FirstBestUnique(g: Game, depth: int, moves: seq<int>, k1: int, k2: int)
    requires WellFormed(g) && AllEmpty(g, moves)
    requires IsFirstBest(g, depth, moves, k1) && IsFirstBest(g, depth, moves, k2)
    ensures k1 == k2
  {
    FirstMaxUnique(RootValues(g, depth, moves), |moves|, k1, k2);
  }
}
