/** The positional evaluation the strategic AI searches with: a fixed weight per square,
  * summed over each side's discs. */
module Evaluation {
  import opened Board

  /** `pieceSquareTable`: corners are worth most, the squares next to them least. */
  const PieceSquareTable: seq<seq<int>> := [
    [120, -20, 20, 5, 5, 20, -20, 120],
    [-20, -40, -5, -5, -5, -5, -40, -20],
    [20, -5, 15, 3, 3, 15, -5, 20],
    [5, -5, 3, 3, 3, 3, -5, 5],
    [5, -5, 3, 3, 3, 3, -5, 5],
    [20, -5, 15, 3, 3, 15, -5, 20],
    [-20, -40, -5, -5, -5, -5, -40, -20],
    [120, -20, 20, 5, 5, 20, -20, 120]
  ]

  /** The sum of the absolute values of all 64 weights, which bounds every evaluation. */
  const MaxEval: int := 1176

  function Weight(r: Idx, c: Idx): int
  {
    PieceSquareTable[r][c]
  }

  function Abs(x: int): int
  {
    if x < 0 then -x else x
  }

  /** The table is unchanged under transposition and under mirroring rows or columns. */
  lemma TableSymmetric(r: Idx, c: Idx)
    ensures Weight(r, c) == Weight(c, r)
    ensures Weight(r, c) == Weight(7 - r, c)
    ensures Weight(r, c) == Weight(r, 7 - c)
  {
    assert PieceSquareTable[7] == PieceSquareTable[0] && PieceSquareTable[6] == PieceSquareTable[1];
    assert PieceSquareTable[5] == PieceSquareTable[2] && PieceSquareTable[4] == PieceSquareTable[3];
  }

  /** The weights of the cells of row `r` among its first `c` columns that hold `x`. */
  function WorthInRow(g: Grid, x: Cell, r: Idx, c: int): int
    requires 0 <= c <= 8
  {
    if c == 0 then 0 else WorthInRow(g, x, r, c - 1) + if g[r][c - 1] == x then Weight(r, c - 1) else 0
  }

  /** The weights of the cells of the first `r` rows that hold `x`. */
  function WorthInRows(g: Grid, x: Cell, r: int): int
    requires 0 <= r <= 8
  {
    if r == 0 then 0 else WorthInRows(g, x, r - 1) + WorthInRow(g, x, r - 1, 8)
  }

  /** The positional value of `p`'s discs less that of the opponent's. */
  function Evaluate(g: Grid, p: Player): int
  {
    WorthInRows(g, Stone(p), 8) - WorthInRows(g, Stone(Opponent(p)), 8)
  }

  /** `evaluateBoard`: one pass over all cells, adding each disc's weight to its side. */
  method EvaluateBoard(board: array2<Cell>, player: Player) returns (score: int)
    requires IsBoard(board)
    ensures score == Evaluate(Snapshot(board), player)
  {
    ghost var g := Snapshot(board);
    var opponent := if player == Player1 then Player2 else Player1;
    var playerScore, opponentScore := 0, 0;
    for r := 0 to 8
      invariant playerScore == WorthInRows(g, Stone(player), r)
      invariant opponentScore == WorthInRows(g, Stone(opponent), r)
    {
      for c := 0 to 8
        invariant playerScore == WorthInRows(g, Stone(player), r) + WorthInRow(g, Stone(player), r, c)
        invariant opponentScore == WorthInRows(g, Stone(opponent), r) + WorthInRow(g, Stone(opponent), r, c)
      {
        SnapshotCell(board, r, c);
        if board[r, c] == Stone(player) {
          playerScore := playerScore + PieceSquareTable[r][c];
        } else if board[r, c] == Stone(opponent) {
          opponentScore := opponentScore + PieceSquareTable[r][c];
        }
      }
    }
    score := playerScore - opponentScore;
  }

  /** What one side gains the other loses. */
  lemma EvaluateAntisymmetric(g: Grid, p: Player)
    ensures Evaluate(g, p) == -Evaluate(g, Opponent(p))
  {
    assert Opponent(Opponent(p)) == p;
  }

  /** The absolute weights of row `r` among its first `c` columns. */
  function AbsInRow(r: Idx, c: int): int
    requires 0 <= c <= 8
  {
    if c == 0 then 0 else AbsInRow(r, c - 1) + Abs(Weight(r, c - 1))
  }

  /** The absolute weights of the first `r` rows. */
  function AbsInRows(r: int): int
    requires 0 <= r <= 8
  {
    if r == 0 then 0 else AbsInRows(r - 1) + AbsInRow(r - 1, 8)
  }

  /** The absolute weights add up to `MaxEval`. */
  lemma AbsTotal()
    ensures AbsInRows(8) == MaxEval
  {
    assert AbsInRow(0, 8) == 330 && AbsInRow(1, 8) == 140 && AbsInRow(2, 8) == 86 && AbsInRow(3, 8) == 32;
    assert AbsInRow(4, 8) == 32 && AbsInRow(5, 8) == 86 && AbsInRow(6, 8) == 140 && AbsInRow(7, 8) == 330;
  }

  lemma {:induction false} RowBounded(g: Grid, x: Cell, y: Cell, r: Idx, c: int)
    requires 0 <= c <= 8 && x != y
    ensures -AbsInRow(r, c) <= WorthInRow(g, x, r, c) - WorthInRow(g, y, r, c) <= AbsInRow(r, c)
  {
    if c > 0 {
      RowBounded(g, x, y, r, c - 1);
    }
  }

  lemma {:induction false} RowsBounded(g: Grid, x: Cell, y: Cell, r: int)
    requires 0 <= r <= 8 && x != y
    ensures -AbsInRows(r) <= WorthInRows(g, x, r) - WorthInRows(g, y, r) <= AbsInRows(r)
  {
    if r > 0 {
      RowsBounded(g, x, y, r - 1);
      RowBounded(g, x, y, r - 1, 8);
    }
  }

  /** Every evaluation lies within the sum of the absolute weights. */
  lemma EvaluateBounded(g: Grid, p: Player)
    ensures -MaxEval <= Evaluate(g, p) <= MaxEval
  {
    RowsBounded(g, Stone(p), Stone(Opponent(p)), 8);
    AbsTotal();
  }
}
