/**
 * The running game: the nine-cell `gameState` array, the `gameActive` and
 * `currentPlayer` flags, and the operations that update them in place.
 * The opponent's searches mark cells of the same array, evaluate, and
 * clear them again; each is proved to leave the board as it found it and
 * to return what module Opponent specifies.
 */
module TicTacToe {

  import opened Wrappers
  import opened Board
  import opened Opponent

  /** The strategy the computer plays, chosen from outside. */
  datatype Difficulty = Easy | Medium | Hard

  /** The medium strategy's priority: O's lowest winning cell if there is
      one, else X's lowest winning cell (a block), else any cell. */
  predicate MediumChoice(b: seq<Cell>, k: nat)
    requires |b| == 9
  {
    if FirstWinningCell(b, O, 0).Some? then FirstWinningCell(b, O, 0) == Some(k)
    else if FirstWinningCell(b, X, 0).Some? then FirstWinningCell(b, X, 0) == Some(k)
    else true
  }

  /** k is a reply the computer may make on board b at this difficulty:
      an empty cell, chosen by priority on Medium and by minimax on Hard. */
  ghost predicate IsReply(b: seq<Cell>, difficulty: Difficulty, k: nat)
    requires |b| == 9
  {
    && k < 9 && b[k] == Empty
    && (difficulty == Medium ==> MediumChoice(b, k))
    && (difficulty == Hard ==> IsBestMove(b, k))
  }

  class Game {
    var board: array<Cell>
    var gameActive: bool
    var currentPlayer: Player

    ghost predicate Valid()
      reads this
    {
      board.Length == 9
    }

    /** What holds between moves: X and O never both have a line, and while
        the game is active nobody has one and some cell is still empty. */
    ghost predicate Consistent()
      reads this, board
      requires Valid()
    {
      && !(CheckWinner(board[..], X) && CheckWinner(board[..], O))
      && (gameActive ==> !CheckWinner(board[..], X) && !CheckWinner(board[..], O) && !Full(board[..]))
    }

    /** The page's initial state: an empty board, X to move, game active. */
    constructor ()
      ensures Valid() && fresh(board)
      ensures board[..] == seq(9, _ => Empty)
      ensures gameActive && currentPlayer == X
      ensures Consistent()
    {
      board := new Cell[9](_ => Empty);
      gameActive := true;
      currentPlayer := X;
      new;
      EmptyBoardHasNoWinner(X);
      EmptyBoardHasNoWinner(O);
      assert board[..][0] == Empty;
    }

    /** `makeMove(index, player)`: ignored unless the cell is empty and the
        game active; otherwise marks the cell, ends the game on a win or a
        full board, and else passes the turn to the other player. */
    method MakeMove(index: nat, player: Player)
      requires Valid() && index < 9
      modifies this, board
      ensures Valid() && board == old(board)
      ensures !old(board[index] == Empty && gameActive) ==>
                board[..] == old(board[..]) && gameActive == old(gameActive) &&
                currentPlayer == old(currentPlayer)
      ensures old(board[index] == Empty && gameActive) ==>
                && board[..] == old(board[..])[index := player]
                && gameActive == !(CheckWinner(board[..], player) || Full(board[..]))
                && currentPlayer == if gameActive then Other(player) else old(currentPlayer)
      ensures old(Consistent()) ==> Consistent()
    {
      if board[index] != Empty || !gameActive {
        return;
      }
      ghost var before := board[..];
      board[index] := player;
      assert board[..] == before[index := player];
      if !CheckWinner(before, Other(player)) {
        PlacingKeepsOtherLoser(before, index, player, Other(player));
      }
      if CheckWinner(board[..], player) {
        gameActive := false;
        return;
      }
      if Full(board[..]) {
        gameActive := false;
        return;
      }
      currentPlayer := Other(player);
    }

    /** `restartGame()`: whatever the state, an empty board, X to move,
        game active. */
    method Restart()
      requires Valid()
      modifies this, board
      ensures Valid() && board == old(board)
      ensures board[..] == seq(9, _ => Empty)
      ensures gameActive && currentPlayer == X
      ensures Consistent()
    {
      forall i | 0 <= i < board.Length {
        board[i] := Empty;
      }
      gameActive := true;
      currentPlayer := X;
      EmptyBoardHasNoWinner(X);
      EmptyBoardHasNoWinner(O);
      assert board[..] == seq(9, _ => Empty);
      assert board[..][0] == Empty;
    }

    /** `getRandomMove()`: an arbitrary empty cell; on a full board the
        source indexes an empty list and gets `undefined`, here None. */
    method RandomMove() returns (move: Option<nat>)
      requires Valid()
      ensures move.None? <==> Full(board[..])
      ensures move.Some? ==> move.value < 9 && board[move.value] == Empty
    {
      var empties := EmptyIndices(board[..]);
      if |empties| == 0 {
        move := None;
      } else {
        var k :| 0 <= k < |empties|;
        assert empties[k] in empties;
        move := Some(empties[k]);
      }
    }

    /** One pass of `getMediumMove`: try p in each empty cell in ascending
        order, clearing it again, and stop at the first that wins for p. */
    method ScanForWin(p: Player) returns (cell: Option<nat>)
      requires Valid()
      modifies board
      ensures board[..] == old(board[..])
      ensures cell == FirstWinningCell(old(board[..]), p, 0)
    {
      ghost var b := board[..];
      var i := 0;
      while i < 9
        invariant 0 <= i <= 9
        invariant board[..] == b
        invariant FirstWinningCell(b, p, 0) == FirstWinningCell(b, p, i)
      {
        if board[i] == Empty {
          board[i] := p;
          assert board[..] == b[i := p];
          var won := CheckWinner(board[..], p);
          board[i] := Empty;
          assert board[..] == b;
          if won {
            return Some(i);
          }
        }
        i := i + 1;
      }
      return None;
    }

    /** `getMediumMove()`: the lowest cell where O wins, else the lowest
        where X would win (a block), else a random empty cell. The board is
        left as it was. */
    method MediumMove() returns (move: Option<nat>)
      requires Valid()
      modifies board
      ensures board[..] == old(board[..])
      ensures move.None? <==> Full(old(board[..]))
      ensures move.Some? ==> IsReply(old(board[..]), Medium, move.value)
    {
      move := ScanForWin(O);
      if move.Some? {
        return;
      }
      move := ScanForWin(X);
      if move.Some? {
        return;
      }
      move := RandomMove();
    }

    /** `minimax(state, depth, isMaximizing)` on the board itself: every
        cell it marks it clears again, and it returns the position's score. */
    method Minimax(depth: int, maximizing: bool) returns (score: int)
      requires Valid()
      modifies board
      ensures board[..] == old(board[..])
      ensures score == Score(old(board[..]), depth, maximizing)
      decreases |EmptyIndices(board[..])|
    {
      if CheckWinner(board[..], O) {
        return 10 - depth;
      }
      if CheckWinner(board[..], X) {
        return depth - 10;
      }
      if Full(board[..]) {
        return 0;
      }
      ghost var b := board[..];
      var best: Option<int> := None;
      var i := 0;
      while i < 9
        invariant 0 <= i <= 9
        invariant board[..] == b
        invariant best == Fold(b, depth, maximizing, i)
      {
        if board[i] == Empty {
          var mark := Mover(maximizing);
          board[i] := mark;
          assert board[..] == b[i := mark];
          PlacingRemovesOneEmpty(b, i, mark);
          var s := Minimax(depth + 1, !maximizing);
          board[i] := Empty;
          assert board[..] == b;
          best := Some(Combine(maximizing, s, best));
        }
        i := i + 1;
      }
      FoldHasChild(b, depth, maximizing, 9, FirstEmpty(b));
      score := best.value;
    }

    /** `getBestMove()`: the empty cell whose minimax score for O is the
        greatest, the lowest one on ties; None on a full board, where the
        source returns `undefined`. The board is left as it was. */
    method BestMove() returns (move: Option<nat>)
      requires Valid()
      modifies board
      ensures board[..] == old(board[..])
      ensures move.None? <==> Full(old(board[..]))
      ensures move.Some? ==> IsBestMove(old(board[..]), move.value)
    {
      ghost var b := board[..];
      var bestScore: Option<int> := None;
      move := None;
      var i := 0;
      while i < 9
        invariant 0 <= i <= 9
        invariant board[..] == b
        invariant move.None? <==> bestScore.None?
        invariant move.None? <==> forall j :: 0 <= j < i ==> b[j] != Empty
        invariant move.Some? ==>
                    && move.value < i && b[move.value] == Empty
                    && bestScore.value == MoveScore(b, move.value)
                    && (forall j :: 0 <= j < i && b[j] == Empty ==> MoveScore(b, j) <= bestScore.value)
                    && (forall j :: 0 <= j < move.value && b[j] == Empty ==> MoveScore(b, j) < bestScore.value)
      {
        if board[i] == Empty {
          board[i] := O;
          assert board[..] == b[i := O];
          var score := Minimax(0, false);
          board[i] := Empty;
          assert board[..] == b;
          if bestScore.None? || score > bestScore.value {
            bestScore := Some(score);
            move := Some(i);
          }
        }
        i := i + 1;
      }
    }

    /** The computer's reply for the chosen difficulty (the dispatch in
        `handleCellClick`). */
    method ComputerMove(difficulty: Difficulty) returns (move: Option<nat>)
      requires Valid()
      modifies board
      ensures board[..] == old(board[..])
      ensures move.None? <==> Full(board[..])
      ensures move.Some? ==> IsReply(board[..], difficulty, move.value)
    {
      match difficulty
      case Easy => move := RandomMove();
      case Medium => move := MediumMove();
      case Hard => move := BestMove();
    }

    /** `handleCellClick` without its delay: a click on an empty cell of an
        active game places X; if that neither wins nor fills the board, the
        computer replies with O on the cell its strategy picks, and the
        flags follow `MakeMove` for both moves. */
    method HandleCellClick(index: nat, difficulty: Difficulty)
      requires Valid() && index < 9
      modifies this, board
      ensures Valid() && board == old(board)
      ensures !old(board[index] == Empty && gameActive) ==>
                board[..] == old(board[..]) && gameActive == old(gameActive) &&
                currentPlayer == old(currentPlayer)
      ensures old(board[index] == Empty && gameActive) ==>
                var afterX := old(board[..])[index := X];
                if CheckWinner(afterX, X) || Full(afterX) then
                  board[..] == afterX && !gameActive && currentPlayer == old(currentPlayer)
                else
                  exists k :: 0 <= k < 9 && IsReply(afterX, difficulty, k) &&
                    board[..] == afterX[k := O] &&
                    gameActive == !(CheckWinner(afterX[k := O], O) || Full(afterX[k := O])) &&
                    currentPlayer == if gameActive then X else O
      ensures old(Consistent()) ==> Consistent()
    {
      if !gameActive || board[index] != Empty {
        return;
      }
      MakeMove(index, X);
      if !gameActive {
        return;
      }
      ghost var afterX := board[..];
      var reply := ComputerMove(difficulty);
      MakeMove(reply.value, O);
      assert board[..] == afterX[reply.value := O];
    }
  }
}
