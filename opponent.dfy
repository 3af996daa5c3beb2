/**
 * What the computer opponent (always O) computes, stated as functions on a
 * board value: the medium strategy's one-ply scan for a winning or blocking
 * cell, and the score the exhaustive minimax search gives a position. The
 * imperative searches in module TicTacToe are proved to return exactly these.
 */
module Opponent {

  import opened Wrappers
  import opened Board

  // ---------------------------------------------------------------------
  // Medium: one-ply lookahead
  // ---------------------------------------------------------------------

  /** The lowest empty index at or after `from` where placing p wins for p,
      if there is one: what each pass of the medium strategy finds. */
  function FirstWinningCell(b: seq<Cell>, p: Player, from: nat): (r: Option<nat>)
    requires |b| == 9 && from <= 9
    ensures r.Some? ==> from <= r.value < 9 && b[r.value] == Empty && CheckWinner(b[r.value := p], p)
    ensures forall j :: from <= j < 9 && b[j] == Empty && (r.None? || j < r.value) ==>
              !CheckWinner(b[j := p], p)
    decreases 9 - from
  {
    if from == 9 then None
    else if b[from] == Empty && CheckWinner(b[from := p], p) then Some(from)
    else FirstWinningCell(b, p, from + 1)
  }

  // ---------------------------------------------------------------------
  // Hard: minimax
  // ---------------------------------------------------------------------

  /** The mark placed by the side to move: O maximizes, X minimizes. */
  function Mover(maximizing: bool): Player
  {
    if maximizing then O else X
  }

  /** `Math.max(score, bestScore)` (or `Math.min`), where `None` stands for
      the `-Infinity` (or `Infinity`) the fold starts from. */
  function Combine(maximizing: bool, score: int, best: Option<int>): int
  {
    match best
    case None => score
    case Some(v) =>
      if maximizing then (if score > v then score else v)
      else (if score < v then score else v)
  }

  /** A position the search does not expand: somebody has won or no cell is left. */
  predicate Terminal(b: seq<Cell>)
    requires |b| == 9
  {
    CheckWinner(b, O) || CheckWinner(b, X) || Full(b)
  }

  /** The value `minimax(state, depth, isMaximizing)` returns for board b:
      10 - depth if O has won, else depth - 10 if X has won, else 0 on a full
      board, else the best child score for the side to move. */
  ghost function Score(b: seq<Cell>, depth: int, maximizing: bool): int
    requires |b| == 9
    decreases |EmptyIndices(b)|, 1, 0, 0
  {
    if CheckWinner(b, O) then 10 - depth
    else if CheckWinner(b, X) then depth - 10
    else if Full(b) then 0
    else
      FoldHasChild(b, depth, maximizing, 9, FirstEmpty(b));
      Fold(b, depth, maximizing, 9).value
  }

  /** The score of the child reached by the mover marking empty cell i. */
  ghost function ChildScore(b: seq<Cell>, depth: int, maximizing: bool, i: Index): int
    requires |b| == 9 && b[i] == Empty
    decreases |EmptyIndices(b)|, 0, 0, 0
  {
    PlacingRemovesOneEmpty(b, i, Mover(maximizing));
    Score(b[i := Mover(maximizing)], depth + 1, !maximizing)
  }

  /** The search loop's accumulator after cells 0 .. n-1: `None` while no
      empty cell has been seen. */
  ghost function Fold(b: seq<Cell>, depth: int, maximizing: bool, n: nat): Option<int>
    requires |b| == 9 && n <= 9
    decreases |EmptyIndices(b)|, 0, n, 0
  {
    if n == 0 then None
    else if b[n - 1] != Empty then Fold(b, depth, maximizing, n - 1)
    else Some(Combine(maximizing, ChildScore(b, depth, maximizing, n - 1), Fold(b, depth, maximizing, n - 1)))
  }

  /** Some empty cell of a board that is not full. */
  function FirstEmpty(b: seq<Cell>): (i: Index)
    requires |b| == 9 && !Full(b)
    ensures b[i] == Empty
  {
    EmptyIndices(b)[0]
  }

  /** Once an empty cell has been scanned the accumulator holds a score. */
  lemma {:induction false} FoldHasChild(b: seq<Cell>, depth: int, maximizing: bool, n: nat, i: Index)
    requires |b| == 9 && n <= 9 && i < n && b[i] == Empty
    ensures Fold(b, depth, maximizing, n).Some?
    decreases |EmptyIndices(b)|, 0, n, 1
  {
    if i < n - 1 {
      FoldHasChild(b, depth, maximizing, n - 1, i);
    }
  }

  /** Scores are depth-adjusted: from a position reached after `depth` plies
      with at most 9 - depth empty cells, the score lies in
      [depth - 10, 10 - depth] (so in [-10, 10]); it is 10 - depth exactly
      when O has already won and depth - 10 exactly when X has (and O has
      not), so a win now outranks any later one. */
  lemma {:induction false} ScoreRange(b: seq<Cell>, depth: int, maximizing: bool)
    requires |b| == 9 && 0 <= depth && depth + |EmptyIndices(b)| <= 9
    ensures -10 <= depth - 10 <= Score(b, depth, maximizing) <= 10 - depth <= 10
    ensures Score(b, depth, maximizing) == 10 - depth <==> CheckWinner(b, O)
    ensures Score(b, depth, maximizing) == depth - 10 <==> !CheckWinner(b, O) && CheckWinner(b, X)
    decreases |EmptyIndices(b)|, 1
  {
    if !Terminal(b) {
      FoldHasChild(b, depth, maximizing, 9, FirstEmpty(b));
      assert Score(b, depth, maximizing) == Fold(b, depth, maximizing, 9).value;
      FoldRange(b, depth, maximizing, 9);
    }
  }

  /** Every score folded in so far lies in [depth - 9, 9 - depth]. */
  lemma {:induction false} FoldRange(b: seq<Cell>, depth: int, maximizing: bool, n: nat)
    requires |b| == 9 && n <= 9 && 0 <= depth && depth + |EmptyIndices(b)| <= 9
    ensures Fold(b, depth, maximizing, n).Some? ==>
              depth - 9 <= Fold(b, depth, maximizing, n).value <= 9 - depth
    decreases |EmptyIndices(b)|, 0, n
  {
    if n > 0 {
      FoldRange(b, depth, maximizing, n - 1);
      if b[n - 1] == Empty {
        PlacingRemovesOneEmpty(b, n - 1, Mover(maximizing));
        ScoreRange(b[n - 1 := Mover(maximizing)], depth + 1, !maximizing);
      }
    }
  }

  /** The fold over cells 0 .. n-1 is the maximum (O to move) or minimum
      (X to move) of the scanned children's scores, and is attained by one. */
  lemma {:induction false} FoldIsExtremum(b: seq<Cell>, depth: int, maximizing: bool, n: nat)
    requires |b| == 9 && n <= 9
    ensures forall i :: 0 <= i < n && b[i] == Empty ==>
              && Fold(b, depth, maximizing, n).Some?
              && (maximizing ==> ChildScore(b, depth, maximizing, i) <= Fold(b, depth, maximizing, n).value)
              && (!maximizing ==> ChildScore(b, depth, maximizing, i) >= Fold(b, depth, maximizing, n).value)
    ensures Fold(b, depth, maximizing, n).Some? ==>
              exists i :: 0 <= i < n && b[i] == Empty &&
                ChildScore(b, depth, maximizing, i) == Fold(b, depth, maximizing, n).value
  {
    if n > 0 {
      FoldIsExtremum(b, depth, maximizing, n - 1);
    }
  }

  /** A position that is not terminal scores the maximum (O to move) or the
      minimum (X to move) over all its children, and some child attains it. */
  lemma ScoreIsExtremum(b: seq<Cell>, depth: int, maximizing: bool)
    requires |b| == 9 && !Terminal(b)
    ensures forall i :: 0 <= i < 9 && b[i] == Empty ==>
              if maximizing then ChildScore(b, depth, maximizing, i) <= Score(b, depth, maximizing)
              else ChildScore(b, depth, maximizing, i) >= Score(b, depth, maximizing)
    ensures exists i :: 0 <= i < 9 && b[i] == Empty &&
              ChildScore(b, depth, maximizing, i) == Score(b, depth, maximizing)
  {
    FoldIsExtremum(b, depth, maximizing, 9);
  }

  // ---------------------------------------------------------------------
  // Hard: the top-level choice
  // ---------------------------------------------------------------------

  /** The score `getBestMove` gives O marking empty cell i:
      `minimax(gameState, 0, false)` on the board with O at i. */
  ghost function MoveScore(b: seq<Cell>, i: Index): int
    requires |b| == 9 && b[i] == Empty
  {
    Score(b[i := O], 0, false)
  }

  /** k is the move `getBestMove` settles on: an empty cell of maximal score,
      and, since a later cell replaces the best only on a strictly greater
      score, the lowest such cell. */
  ghost predicate IsBestMove(b: seq<Cell>, k: nat)
    requires |b| == 9
  {
    && k < 9 && b[k] == Empty
    && (forall j :: 0 <= j < 9 && b[j] == Empty ==> MoveScore(b, j) <= MoveScore(b, k))
    && (forall j :: 0 <= j < k && b[j] == Empty ==> MoveScore(b, j) < MoveScore(b, k))
  }

  /** The tie-break leaves no choice: at most one cell is the best move. */
  lemma BestMoveIsUnique(b: seq<Cell>, k1: nat, k2: nat)
    requires |b| == 9 && IsBestMove(b, k1) && IsBestMove(b, k2)
    ensures k1 == k2
  {
  }

  /** On a position that is not terminal, the best move attains the minimax
      value of the position with O to move one ply earlier. */
  lemma BestMoveAttainsValue(b: seq<Cell>, k: nat)
    requires |b| == 9 && !Terminal(b) && IsBestMove(b, k)
    ensures MoveScore(b, k) == Score(b, -1, true)
  {
    ScoreIsExtremum(b, -1, true);
    var i :| 0 <= i < 9 && b[i] == Empty && ChildScore(b, -1, true, i) == Score(b, -1, true);
    assert MoveScore(b, i) == ChildScore(b, -1, true, i);
    assert MoveScore(b, k) == ChildScore(b, -1, true, k);
  }

  /** When O can win at once, the hard strategy takes the same winning cell
      as the medium one: the lowest cell that completes a line for O. */
  lemma HardTakesImmediateWin(b: seq<Cell>, k: nat)
    requires |b| == 9 && IsBestMove(b, k) && FirstWinningCell(b, O, 0).Some?
    ensures FirstWinningCell(b, O, 0) == Some(k)
  {
    var w := FirstWinningCell(b, O, 0).value;
    forall j | 0 <= j < 9 && b[j] == Empty
      ensures MoveScore(b, j) <= 10
      ensures MoveScore(b, j) == 10 <==> CheckWinner(b[j := O], O)
    {
      PlacingRemovesOneEmpty(b, j, O);
      ScoreRange(b[j := O], 0, false);
    }
    assert MoveScore(b, w) == 10;
    assert CheckWinner(b[k := O], O);
  }

  /** The board O O _ / X X _ / _ _ _ with O to move: both the medium and the
      hard strategy take the win at cell 2 rather than block at cell 5. */
  lemma TakeWinBeforeBlock()
    ensures var b := [O, O, Empty, X, X, Empty, Empty, Empty, Empty];
      && FirstWinningCell(b, O, 0) == Some(2)
      && forall k :: IsBestMove(b, k) ==> k == 2
  {
    var b := [O, O, Empty, X, X, Empty, Empty, Empty, Empty];
    assert Owns(b[2 := O], WinPatterns[0], O);
    assert FirstWinningCell(b, O, 0) == Some(2);
    forall k | IsBestMove(b, k)
      ensures k == 2
    {
      HardTakesImmediateWin(b, k);
    }
  }

  /** The board X X _ / _ _ _ / _ _ _ with O to move: O has no winning cell,
      so the medium strategy blocks X at cell 2. */
  lemma MediumBlocks()
    ensures var b := [X, X, Empty, Empty, Empty, Empty, Empty, Empty, Empty];
      && FirstWinningCell(b, O, 0) == None
      && FirstWinningCell(b, X, 0) == Some(2)
  {
    var b := [X, X, Empty, Empty, Empty, Empty, Empty, Empty, Empty];
    forall j | 0 <= j < 9 && b[j] == Empty
      ensures !CheckWinner(b[j := O], O)
    {
      forall k | 0 <= k < |WinPatterns|
        ensures !Owns(b[j := O], WinPatterns[k], O)
      {
      }
    }
    assert Owns(b[2 := X], WinPatterns[0], X);
  }
}
