/**
 * The 3x3 board: nine cells in row-major order, the eight winning lines and
 * the queries the game and the opponent make of a board (`checkWinner`, the
 * fullness test and the list of empty indices).
 */
module Board {

  /** A square of the grid: `''` in the source is Empty. */
  datatype Cell = Empty | X | O

  /** The marks the two players place; never Empty. */
  type Player = c: Cell | c != Empty witness X

  /** A cell index of the 3x3 grid. */
  type Index = i: nat | i < 9

  /** The player who moves after p. */
  function Other(p: Player): (q: Player)
    ensures q != p
  {
    if p == X then O else X
  }

  /** The three rows, three columns and two diagonals, in the source's order. */
  const WinPatterns: seq<(Index, Index, Index)> := [
    (0, 1, 2),
    (3, 4, 5),
    (6, 7, 8),
    (0, 3, 6),
    (1, 4, 7),
    (2, 5, 8),
    (0, 4, 8),
    (2, 4, 6)
  ]

  /** p holds all three cells of the line. */
  predicate Owns(b: seq<Cell>, line: (Index, Index, Index), p: Player)
    requires |b| == 9
  {
    b[line.0] == p && b[line.1] == p && b[line.2] == p
  }

  /** `checkWinner(player)`: some winning pattern is entirely p's. */
  function CheckWinner(b: seq<Cell>, p: Player): (won: bool)
    requires |b| == 9
    ensures won <==> exists k :: 0 <= k < |WinPatterns| && Owns(b, WinPatterns[k], p)
  {
    AnyLineFrom(b, p, 0)
  }

  /** `winPatterns.some(...)`, scanning the patterns from the k-th on. */
  function AnyLineFrom(b: seq<Cell>, p: Player, k: nat): (won: bool)
    requires |b| == 9 && k <= |WinPatterns|
    ensures won <==> exists j :: k <= j < |WinPatterns| && Owns(b, WinPatterns[j], p)
    decreases |WinPatterns| - k
  {
    k < |WinPatterns| && (Owns(b, WinPatterns[k], p) || AnyLineFrom(b, p, k + 1))
  }

  /** The cell in row r and column c. */
  function At(b: seq<Cell>, r: nat, c: nat): Cell
    requires |b| == 9 && r < 3 && c < 3
  {
    b[3 * r + c]
  }

  /** p holds every cell of row r. */
  ghost predicate RowOwned(b: seq<Cell>, r: nat, p: Player)
    requires |b| == 9 && r < 3
  {
    forall c :: 0 <= c < 3 ==> At(b, r, c) == p
  }

  /** p holds every cell of column c. */
  ghost predicate ColumnOwned(b: seq<Cell>, c: nat, p: Player)
    requires |b| == 9 && c < 3
  {
    forall r :: 0 <= r < 3 ==> At(b, r, c) == p
  }

  /** Three in a row on the grid, stated by geometry rather than by table:
      a whole row, a whole column, the main diagonal or the anti-diagonal. */
  ghost predicate ThreeInARow(b: seq<Cell>, p: Player)
    requires |b| == 9
  {
    (exists r :: 0 <= r < 3 && RowOwned(b, r, p)) ||
    (exists c :: 0 <= c < 3 && ColumnOwned(b, c, p)) ||
    (forall k :: 0 <= k < 3 ==> At(b, k, k) == p) ||
    (forall r, c :: 0 <= r < 3 && 0 <= c < 3 && r + c == 2 ==> At(b, r, c) == p)
  }

  /** The eight patterns are exactly the rows, the columns and the two diagonals. */
  lemma WinPatternsAreLines(b: seq<Cell>, p: Player)
    requires |b| == 9
    ensures CheckWinner(b, p) <==> ThreeInARow(b, p)
  {
    if CheckWinner(b, p) {
      var k :| 0 <= k < |WinPatterns| && Owns(b, WinPatterns[k], p);
      if k < 3 {
        assert RowOwned(b, k, p);
      } else if k < 6 {
        assert ColumnOwned(b, k - 3, p);
      } else if k == 6 {
        assert forall j :: 0 <= j < 3 ==> At(b, j, j) == p;
      } else {
        assert forall r, c :: 0 <= r < 3 && 0 <= c < 3 && r + c == 2 ==> At(b, r, c) == p;
      }
    }
    if ThreeInARow(b, p) {
      if r :| 0 <= r < 3 && RowOwned(b, r, p) {
        assert At(b, r, 0) == p && At(b, r, 1) == p && At(b, r, 2) == p;
        assert Owns(b, WinPatterns[r], p);
      } else if c :| 0 <= c < 3 && ColumnOwned(b, c, p) {
        assert At(b, 0, c) == p && At(b, 1, c) == p && At(b, 2, c) == p;
        assert Owns(b, WinPatterns[3 + c], p);
      } else if forall k :: 0 <= k < 3 ==> At(b, k, k) == p {
        assert At(b, 0, 0) == p && At(b, 1, 1) == p && At(b, 2, 2) == p;
        assert Owns(b, WinPatterns[6], p);
      } else {
        assert At(b, 0, 2) == p && At(b, 1, 1) == p && At(b, 2, 0) == p;
        assert Owns(b, WinPatterns[7], p);
      }
    }
  }

  /** Placing p's mark can never complete a line for the other player. */
  lemma PlacingKeepsOtherLoser(b: seq<Cell>, i: Index, p: Player, q: Player)
    requires |b| == 9 && p != q && !CheckWinner(b, q)
    ensures !CheckWinner(b[i := p], q)
  {
  }

  /** The empty board is a win for nobody. */
  lemma EmptyBoardHasNoWinner(p: Player)
    ensures !CheckWinner(seq(9, _ => Empty), p)
  {
  }

  /** No cell is empty: the draw test once nobody has won. */
  predicate Full(b: seq<Cell>)
  {
    forall i :: 0 <= i < |b| ==> b[i] != Empty
  }

  /** The indices of the empty cells in ascending order: the candidates
      the random opponent picks from. */
  function EmptyIndices(b: seq<Cell>): (r: seq<nat>)
    ensures forall i :: i in r <==> 0 <= i < |b| && b[i] == Empty
    ensures forall j, k :: 0 <= j < k < |r| ==> r[j] < r[k]
    ensures |r| <= |b|
    ensures |r| == 0 <==> Full(b)
  {
    var r := EmptyIndicesFrom(b, 0);
    assert |r| > 0 ==> r[0] in r;
    r
  }

  /** The empty indices at or after `from`, ascending. */
  function EmptyIndicesFrom(b: seq<Cell>, from: nat): (r: seq<nat>)
    requires from <= |b|
    ensures forall i :: i in r <==> from <= i < |b| && b[i] == Empty
    ensures forall j :: 0 <= j < |r| ==> from <= r[j] < |b|
    ensures forall j, k :: 0 <= j < k < |r| ==> r[j] < r[k]
    ensures |r| <= |b| - from
    decreases |b| - from
  {
    if from == |b| then []
    else if b[from] == Empty then [from] + EmptyIndicesFrom(b, from + 1)
    else EmptyIndicesFrom(b, from + 1)
  }

  /** Marking an empty cell leaves exactly one empty cell fewer: the measure
      on which the search's recursion terminates. */
  lemma PlacingRemovesOneEmpty(b: seq<Cell>, i: nat, p: Player)
    requires i < |b| && b[i] == Empty
    ensures |EmptyIndices(b[i := p])| == |EmptyIndices(b)| - 1
  {
    PlacingRemovesOneEmptyFrom(b, i, p, 0);
  }

  lemma {:induction false} PlacingRemovesOneEmptyFrom(b: seq<Cell>, i: nat, p: Player, from: nat)
    requires i < |b| && b[i] == Empty && from <= |b|
    ensures |EmptyIndicesFrom(b[i := p], from)| ==
            if from <= i then |EmptyIndicesFrom(b, from)| - 1 else |EmptyIndicesFrom(b, from)|
    decreases |b| - from
  {
    if from < |b| {
      PlacingRemovesOneEmptyFrom(b, i, p, from + 1);
    }
  }
}
