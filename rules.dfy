/** The rules built on `getFlips`: legal moves, playing a move, counting discs and the end
  * of the game. */
module Rules {
  import opened Board
  import opened Capture

  // ---- Legal moves ----------------------------------------------------------------------

  /** A move is legal when its cell is empty and it captures at least one disc. */
  predicate IsLegal(g: Grid, m: Move, p: Player)
  {
    At(g, m) == Empty && Flips(g, m, p) != []
  }

  /** The cells of row `r` among its first `c` columns that satisfy `ok`, left to right. */
  function SelectInRow(ok: Move -> bool, r: Idx, c: int): seq<Move>
    requires 0 <= c <= 8
  {
    if c == 0 then []
    else SelectInRow(ok, r, c - 1) + if ok(Move(r, c - 1)) then [Move(r, c - 1)] else []
  }

  /** The cells of the first `r` rows that satisfy `ok`, in row-major order. */
  function SelectInRows(ok: Move -> bool, r: int): seq<Move>
    requires 0 <= r <= 8
  {
    if r == 0 then [] else SelectInRows(ok, r - 1) + SelectInRow(ok, r - 1, 8)
  }

  /** Legality for `p` on `g`, as a test on cells. */
  function LegalFor(g: Grid, p: Player): Move -> bool
  {
    m => IsLegal(g, m, p)
  }

  /** What `getValidMoves` returns: the legal moves in row-major order. */
  function ValidMoves(g: Grid, p: Player): seq<Move>
  {
    SelectInRows(LegalFor(g, p), 8)
  }

  /** Strictly increasing in row-major order, hence free of duplicates. */
  predicate RowMajor(s: seq<Move>)
  {
    forall i, j :: 0 <= i < j < |s| ==> Index(s[i]) < Index(s[j])
  }

  /** A row scan keeps exactly the cells of that row, left of `c`, that pass the test. */
  lemma {:induction false} SelectInRowMembers(ok: Move -> bool, r: Idx, c: int)
    requires 0 <= c <= 8
    ensures forall m :: m in SelectInRow(ok, r, c) <==> ok(m) && m.row == r && m.col < c
  {
    if c > 0 {
      SelectInRowMembers(ok, r, c - 1);
    }
  }

  /** Every listed cell has a row-major index in [lo, hi). */
  predicate IndexedIn(s: seq<Move>, lo: int, hi: int)
  {
    forall i :: 0 <= i < |s| ==> lo <= Index(s[i]) < hi
  }

  /** Two row-major lists, the first wholly before the second, join into one. */
  lemma RowMajorAppend(a: seq<Move>, b: seq<Move>, lo: int, mid: int, hi: int)
    requires lo <= mid <= hi
    requires RowMajor(a) && RowMajor(b) && IndexedIn(a, lo, mid) && IndexedIn(b, mid, hi)
    ensures RowMajor(a + b) && IndexedIn(a + b, lo, hi)
  {
    var s := a + b;
    forall i, j | 0 <= i < j < |s|
      ensures Index(s[i]) < Index(s[j])
    {
      if j < |a| {
        assert s[i] == a[i] && s[j] == a[j];
      } else if i >= |a| {
        assert s[i] == b[i - |a|] && s[j] == b[j - |a|];
      } else {
        assert s[i] == a[i] && s[j] == b[j - |a|];
      }
    }
    forall i | 0 <= i < |s|
      ensures lo <= Index(s[i]) < hi
    {
      if i < |a| {
        assert s[i] == a[i];
      } else {
        assert s[i] == b[i - |a|];
      }
    }
  }

  /** A row scan lists its cells left to right. */
  lemma {:induction false} SelectInRowOrdered(ok: Move -> bool, r: Idx, c: int)
    requires 0 <= c <= 8
    ensures RowMajor(SelectInRow(ok, r, c)) && IndexedIn(SelectInRow(ok, r, c), 8 * r, 8 * r + c)
  {
    if c > 0 {
      SelectInRowOrdered(ok, r, c - 1);
      var m := Move(r, c - 1);
      RowMajorAppend(SelectInRow(ok, r, c - 1), if ok(m) then [m] else [], 8 * r, 8 * r + c - 1, 8 * r + c);
    }
  }

  /** A row where no cell passes the test contributes nothing. */
  lemma {:induction false} SelectInRowNone(ok: Move -> bool, r: Idx, c: int)
    requires 0 <= c <= 8 && forall j :: 0 <= j < 8 ==> !ok(Move(r, j))
    ensures SelectInRow(ok, r, c) == []
  {
    if c > 0 {
      SelectInRowNone(ok, r, c - 1);
    }
  }

  /** A row where exactly the cell in column `k` passes the test contributes that cell. */
  lemma {:induction false} SelectInRowOne(ok: Move -> bool, r: Idx, k: Idx, c: int)
    requires 0 <= c <= 8 && forall j :: 0 <= j < 8 ==> (ok(Move(r, j)) <==> j == k)
    ensures SelectInRow(ok, r, c) == if k < c then [Move(r, k)] else []
  {
    if c > 0 {
      SelectInRowOne(ok, r, k, c - 1);
      assert ok(Move(r, c - 1)) <==> c - 1 == k;
    }
  }

  /** A scan of the first `r` rows keeps exactly the cells there that pass the test. */
  lemma {:induction false} SelectInRowsMembers(ok: Move -> bool, r: int)
    requires 0 <= r <= 8
    ensures forall m :: m in SelectInRows(ok, r) <==> ok(m) && m.row < r
  {
    if r > 0 {
      SelectInRowsMembers(ok, r - 1);
      SelectInRowMembers(ok, r - 1, 8);
    }
  }

  /** A scan of the first `r` rows lists its cells in row-major order. */
  lemma {:induction false} SelectInRowsOrdered(ok: Move -> bool, r: int)
    requires 0 <= r <= 8
    ensures RowMajor(SelectInRows(ok, r)) && IndexedIn(SelectInRows(ok, r), 0, 8 * r)
  {
    if r > 0 {
      SelectInRowsOrdered(ok, r - 1);
      SelectInRowOrdered(ok, r - 1, 8);
      RowMajorAppend(SelectInRows(ok, r - 1), SelectInRow(ok, r - 1, 8), 0, 8 * (r - 1), 8 * r);
    }
  }

  /** `getValidMoves` finds every legal move and nothing else, each once, in row-major order. */
  lemma ValidMovesExactly(g: Grid, p: Player)
    ensures forall m :: m in ValidMoves(g, p) <==> IsLegal(g, m, p)
    ensures RowMajor(ValidMoves(g, p))
    ensures forall i, j :: 0 <= i < j < |ValidMoves(g, p)| ==> ValidMoves(g, p)[i] != ValidMoves(g, p)[j]
  {
    var s := ValidMoves(g, p);
    SelectInRowsMembers(LegalFor(g, p), 8);
    SelectInRowsOrdered(LegalFor(g, p), 8);
    forall m
      ensures m in s <==> IsLegal(g, m, p)
    {
      assert LegalFor(g, p)(m) == IsLegal(g, m, p);
    }
    forall i, j | 0 <= i < j < |s|
      ensures s[i] != s[j]
    {
      assert Index(s[i]) < Index(s[j]);
    }
  }

  /** `getValidMoves`: the row-major scan over all cells. */
  method GetValidMoves(board: array2<Cell>, player: Player) returns (moves: seq<Move>)
    requires IsBoard(board)
    ensures moves == ValidMoves(Snapshot(board), player)
  {
    ghost var legal := LegalFor(Snapshot(board), player);
    moves := [];
    for r := 0 to 8
      invariant moves == SelectInRows(legal, r)
    {
      for c := 0 to 8
        invariant moves == SelectInRows(legal, r) + SelectInRow(legal, r, c)
      {
        SnapshotCell(board, r, c);
        if board[r, c] == Empty {
          var flips := GetFlips(board, r, c, player);
          if |flips| > 0 {
            moves := moves + [Move(r, c)];
          }
        }
      }
    }
  }

  // ---- Playing a move -------------------------------------------------------------------

  /** The grid after `makeMove`: unchanged when the move captures nothing, otherwise the
    * target and every captured disc painted in the mover's colour. */
  function Play(g: Grid, m: Move, p: Player): Grid
  {
    if Flips(g, m, p) == [] then g else Paint(g, [m] + Flips(g, m, p), p)
  }

  /** Only the target and the captured discs change, and they become the mover's. */
  lemma PlayAt(g: Grid, m: Move, p: Player, n: Move)
    ensures At(Play(g, m, p), n) ==
      if Flips(g, m, p) != [] && (n == m || n in Flips(g, m, p)) then Stone(p) else At(g, n)
  {
    if Flips(g, m, p) != [] {
      PaintAt(g, [m] + Flips(g, m, p), p, n);
    }
  }

  /** `makeMove`: copies the board, and when the move captures, writes the mover's disc on
    * the target and on every captured cell; `flipped` is the move followed by the captures. */
  method MakeMove(board: array2<Cell>, move: Move, player: Player) returns (newBoard: array2<Cell>, flipped: seq<Move>)
    requires IsBoard(board)
    ensures fresh(newBoard) && IsBoard(newBoard)
    ensures Snapshot(newBoard) == Play(Snapshot(board), move, player)
    ensures flipped == [move] + Flips(Snapshot(board), move, player)
  {
    newBoard := new Cell[8, 8]((r, c) reads board => if 0 <= r < 8 && 0 <= c < 8 then board[r, c] else Empty);
    CopiedSnapshot(board, newBoard);
    ghost var g := Snapshot(board);
    var flips := GetFlips(newBoard, move.row, move.col, player);
    if |flips| > 0 {
      Put(newBoard, move, Stone(player));
      ghost var placed := Snapshot(newBoard);
      for i := 0 to |flips|
        invariant Snapshot(newBoard) == Paint(placed, flips[..i], player)
      {
        Put(newBoard, flips[i], Stone(player));
        PaintNext(placed, flips, player, i);
      }
      assert flips[..|flips|] == flips;
      PaintFirst(g, move, flips, player);
    }
    flipped := [move] + flips;
  }

  /** A copy has the value of the board it copies. */
  lemma CopiedSnapshot(a: array2<Cell>, b: array2<Cell>)
    requires IsBoard(a) && IsBoard(b)
    requires forall r, c :: 0 <= r < 8 && 0 <= c < 8 ==> b[r, c] == a[r, c]
    ensures Snapshot(b) == Snapshot(a)
  {
    assert forall r | 0 <= r < 8 :: Snapshot(b)[r] == Snapshot(a)[r];
  }

  // ---- Counting discs -------------------------------------------------------------------

  /** How many cells of row `r` among its first `c` columns hold `x`. */
  function CountInRow(g: Grid, x: Cell, r: Idx, c: int): nat
    requires 0 <= c <= 8
  {
    if c == 0 then 0 else CountInRow(g, x, r, c - 1) + if g[r][c - 1] == x then 1 else 0
  }

  /** How many cells of the first `r` rows hold `x`. */
  function CountInRows(g: Grid, x: Cell, r: int): nat
    requires 0 <= r <= 8
  {
    if r == 0 then 0 else CountInRows(g, x, r - 1) + CountInRow(g, x, r - 1, 8)
  }

  /** How many cells of the board hold `x`. */
  function Count(g: Grid, x: Cell): nat
  {
    CountInRows(g, x, 8)
  }

  /** The two disc counts `calculateScores` reports. */
  datatype Scores = Scores(player1: nat, player2: nat)

  /** `calculateScores`: one pass over all cells, counting each side's discs. */
  method CalculateScores(board: array2<Cell>) returns (scores: Scores)
    requires IsBoard(board)
    ensures scores.player1 == Count(Snapshot(board), Stone(Player1))
    ensures scores.player2 == Count(Snapshot(board), Stone(Player2))
  {
    ghost var g := Snapshot(board);
    var player1, player2 := 0, 0;
    for r := 0 to 8
      invariant player1 == CountInRows(g, Stone(Player1), r)
      invariant player2 == CountInRows(g, Stone(Player2), r)
    {
      for c := 0 to 8
        invariant player1 == CountInRows(g, Stone(Player1), r) + CountInRow(g, Stone(Player1), r, c)
        invariant player2 == CountInRows(g, Stone(Player2), r) + CountInRow(g, Stone(Player2), r, c)
      {
        SnapshotCell(board, r, c);
        if board[r, c] == Stone(Player1) {
          player1 := player1 + 1;
        } else if board[r, c] == Stone(Player2) {
          player2 := player2 + 1;
        }
      }
    }
    scores := Scores(player1, player2);
  }

  lemma {:induction false} CountInRowTotal(g: Grid, r: Idx, c: int)
    requires 0 <= c <= 8
    ensures CountInRow(g, Stone(Player1), r, c) + CountInRow(g, Stone(Player2), r, c) + CountInRow(g, Empty, r, c) == c
  {
    if c > 0 {
      CountInRowTotal(g, r, c - 1);
      match g[r][c - 1]
      case Empty =>
      case Stone(q) => assert q == Player1 || q == Player2;
    }
  }

  lemma {:induction false} CountInRowsTotal(g: Grid, r: int)
    requires 0 <= r <= 8
    ensures CountInRows(g, Stone(Player1), r) + CountInRows(g, Stone(Player2), r) + CountInRows(g, Empty, r) == 8 * r
  {
    if r > 0 {
      CountInRowsTotal(g, r - 1);
      CountInRowTotal(g, r - 1, 8);
    }
  }

  /** Every cell is Player1's, Player2's or empty: the three counts cover the 64 cells. */
  lemma CountTotal(g: Grid)
    ensures Count(g, Stone(Player1)) + Count(g, Stone(Player2)) + Count(g, Empty) == 64
  {
    CountInRowsTotal(g, 8);
  }

  lemma {:induction false} CountInRowUniform(g: Grid, x: Cell, y: Cell, r: Idx, c: int)
    requires 0 <= c <= 8 && forall m :: At(g, m) == y
    ensures CountInRow(g, x, r, c) == if x == y then c else 0
  {
    if c > 0 {
      CountInRowUniform(g, x, y, r, c - 1);
      assert At(g, Move(r, c - 1)) == y;
    }
  }

  lemma {:induction false} CountInRowsUniform(g: Grid, x: Cell, y: Cell, r: int)
    requires 0 <= r <= 8 && forall m :: At(g, m) == y
    ensures CountInRows(g, x, r) == if x == y then 8 * r else 0
  {
    if r > 0 {
      CountInRowsUniform(g, x, y, r - 1);
      CountInRowUniform(g, x, y, r - 1, 8);
    }
  }

  /** On a board filled with `y`, all 64 cells count for `y` and none for anything else. */
  lemma CountUniform(g: Grid, x: Cell, y: Cell)
    requires forall m :: At(g, m) == y
    ensures Count(g, x) == if x == y then 64 else 0
  {
    CountInRowsUniform(g, x, y, 8);
  }

  /** A cell holding `x` is counted. */
  lemma {:induction false} CountInRowHas(g: Grid, x: Cell, r: Idx, c: int, m: Move)
    requires 0 <= c <= 8 && m.row == r && m.col < c && At(g, m) == x
    ensures CountInRow(g, x, r, c) > 0
  {
    if m.col < c - 1 {
      CountInRowHas(g, x, r, c - 1, m);
    }
  }

  lemma {:induction false} CountInRowsHas(g: Grid, x: Cell, r: int, m: Move)
    requires 0 <= r <= 8 && m.row < r && At(g, m) == x
    ensures CountInRows(g, x, r) > 0
  {
    if m.row < r - 1 {
      CountInRowsHas(g, x, r - 1, m);
    } else {
      CountInRowHas(g, x, r - 1, 8, m);
    }
  }

  /** `x` occurs on the board exactly when its count is positive. */
  lemma CountPositive(g: Grid, x: Cell)
    ensures Count(g, x) == 0 ==> forall m :: At(g, m) != x
  {
    forall m | At(g, m) == x
      ensures Count(g, x) > 0
    {
      CountInRowsHas(g, x, 8, m);
    }
  }

  /** Overwriting one cell moves it from the count of its old content to that of its new one. */
  lemma {:induction false} CountInRowSet(g: Grid, n: Move, x: Cell, y: Cell, r: Idx, c: int)
    requires 0 <= c <= 8
    ensures CountInRow(SetCell(g, n, x), y, r, c) + (if n.row == r && n.col < c && At(g, n) == y then 1 else 0)
      == CountInRow(g, y, r, c) + (if n.row == r && n.col < c && x == y then 1 else 0)
  {
    if c > 0 {
      CountInRowSet(g, n, x, y, r, c - 1);
      assert At(SetCell(g, n, x), Move(r, c - 1)) == if n == Move(r, c - 1) then x else At(g, Move(r, c - 1));
    }
  }

  lemma {:induction false} CountInRowsSet(g: Grid, n: Move, x: Cell, y: Cell, r: int)
    requires 0 <= r <= 8
    ensures CountInRows(SetCell(g, n, x), y, r) + (if n.row < r && At(g, n) == y then 1 else 0)
      == CountInRows(g, y, r) + (if n.row < r && x == y then 1 else 0)
  {
    if r > 0 {
      CountInRowsSet(g, n, x, y, r - 1);
      CountInRowSet(g, n, x, y, r - 1, 8);
    }
  }

  lemma CountSet(g: Grid, n: Move, x: Cell, y: Cell)
    ensures Count(SetCell(g, n, x), y) + (if At(g, n) == y then 1 else 0)
      == Count(g, y) + (if x == y then 1 else 0)
  {
    CountInRowsSet(g, n, x, y, 8);
  }

  /** How many of `cells` hold `y` on `g`. */
  function Hits(g: Grid, cells: seq<Move>, y: Cell): nat
    decreases |cells|
  {
    if cells == [] then 0
    else Hits(g, cells[..|cells| - 1], y) + if At(g, cells[|cells| - 1]) == y then 1 else 0
  }

  lemma {:induction false} HitsAppend(g: Grid, a: seq<Move>, b: seq<Move>, y: Cell)
    ensures Hits(g, a + b, y) == Hits(g, a, y) + Hits(g, b, y)
    decreases |b|
  {
    if b == [] {
      assert a + b == a;
    } else {
      var front := b[..|b| - 1];
      assert (a + b)[..|a + b| - 1] == a + front;
      HitsAppend(g, a, front, y);
    }
  }

  lemma {:induction false} HitsAll(g: Grid, cells: seq<Move>, y: Cell)
    requires forall i :: 0 <= i < |cells| ==> At(g, cells[i]) == y
    ensures Hits(g, cells, y) == |cells|
    decreases |cells|
  {
    if cells != [] {
      HitsAll(g, cells[..|cells| - 1], y);
    }
  }

  lemma {:induction false} HitsNone(g: Grid, cells: seq<Move>, y: Cell)
    requires forall i :: 0 <= i < |cells| ==> At(g, cells[i]) != y
    ensures Hits(g, cells, y) == 0
    decreases |cells|
  {
    if cells != [] {
      HitsNone(g, cells[..|cells| - 1], y);
    }
  }

  /** Painting distinct cells: `p` gains every painted cell, and every other content loses
    * the painted cells that held it. */
  lemma {:induction false} PaintCount(g: Grid, cells: seq<Move>, p: Player, y: Cell)
    requires Distinct(cells)
    ensures Count(Paint(g, cells, p), y) + Hits(g, cells, y) == Count(g, y) + if y == Stone(p) then |cells| else 0
    decreases |cells|
  {
    if cells != [] {
      var front, last := cells[..|cells| - 1], cells[|cells| - 1];
      assert last !in front;
      PaintCount(g, front, p, y);
      PaintAt(g, front, p, last);
      CountSet(Paint(g, front, p), last, Stone(p), y);
    }
  }

  /** Disc conservation: a legal move adds the placed disc and every flipped disc to the
    * mover's count, removes the flipped discs from the opponent's, and fills one empty cell. */
  lemma PlayCount(g: Grid, m: Move, p: Player)
    requires IsLegal(g, m, p)
    ensures Count(Play(g, m, p), Stone(p)) == Count(g, Stone(p)) + 1 + |Flips(g, m, p)|
    ensures Count(Play(g, m, p), Stone(Opponent(p))) == Count(g, Stone(Opponent(p))) - |Flips(g, m, p)|
    ensures Count(Play(g, m, p), Empty) == Count(g, Empty) - 1
  {
    var f := Flips(g, m, p);
    var cells := [m] + f;
    FlipsExactly(g, m, p);
    FlipsOwned(g, m, p);
    assert Distinct(cells) by {
      forall i, j | 0 <= i < j < |cells|
        ensures cells[i] != cells[j]
      {
        if i == 0 {
          assert cells[j] in f;
        } else {
          assert cells[i] == f[i - 1] && cells[j] == f[j - 1];
        }
      }
    }
    forall i | 0 <= i < |f|
      ensures At(g, f[i]) == Stone(Opponent(p))
    {
      assert f[i] in f;
    }
    HitsAppend(g, [m], f, Stone(p));
    HitsAppend(g, [m], f, Stone(Opponent(p)));
    HitsAppend(g, [m], f, Empty);
    HitsNone(g, f, Stone(p));
    HitsAll(g, f, Stone(Opponent(p)));
    HitsNone(g, f, Empty);
    PaintCount(g, cells, p, Stone(p));
    PaintCount(g, cells, p, Stone(Opponent(p)));
    PaintCount(g, cells, p, Empty);
  }

  // ---- End of the game ------------------------------------------------------------------

  /** What `checkGameOver` decides: neither side has a valid move. */
  predicate GameOver(g: Grid)
  {
    ValidMoves(g, Player1) == [] && ValidMoves(g, Player2) == []
  }

  /** The game is over exactly when no move is legal for either side. */
  lemma GameOverExactly(g: Grid)
    ensures GameOver(g) <==> forall m, p :: !IsLegal(g, m, p)
  {
    NoValidMoves(g, Player1);
    NoValidMoves(g, Player2);
    forall m, p | IsLegal(g, m, p)
      ensures !GameOver(g)
    {
      if p == Player1 {
        assert !(ValidMoves(g, Player1) == []);
      } else {
        assert !(ValidMoves(g, Player2) == []);
      }
    }
  }

  /** A side has no valid move exactly when no cell is legal for it. */
  lemma NoValidMoves(g: Grid, p: Player)
    ensures ValidMoves(g, p) == [] <==> forall m :: !IsLegal(g, m, p)
  {
    ValidMovesExactly(g, p);
    if ValidMoves(g, p) != [] {
      assert ValidMoves(g, p)[0] in ValidMoves(g, p);
    }
  }

  /** A board without an empty cell ends the game. */
  lemma FullBoardIsOver(g: Grid)
    ensures Count(g, Empty) == 0 ==> GameOver(g)
  {
    CountPositive(g, Empty);
    GameOverExactly(g);
  }

  /** `checkGameOver`: asks `getValidMoves` for both sides. */
  method CheckGameOver(board: array2<Cell>) returns (over: bool)
    requires IsBoard(board)
    ensures over == GameOver(Snapshot(board))
    ensures over <==> forall m, p :: !IsLegal(Snapshot(board), m, p)
  {
    var p1Moves := GetValidMoves(board, Player1);
    var p2Moves := GetValidMoves(board, Player2);
    over := |p1Moves| == 0 && |p2Moves| == 0;
    GameOverExactly(Snapshot(board));
  }

  /** `getWinner`'s result: a side, or a tie (0 in the source). */
  datatype Outcome = Won(winner: Player) | Tie

  /** `getWinner`: the side with strictly more discs wins; equal counts are a tie. */
  method GetWinner(board: array2<Cell>) returns (outcome: Outcome)
    requires IsBoard(board)
    ensures forall p :: outcome == Won(p) <==>
      Count(Snapshot(board), Stone(p)) > Count(Snapshot(board), Stone(Opponent(p)))
    ensures outcome == Tie <==> Count(Snapshot(board), Stone(Player1)) == Count(Snapshot(board), Stone(Player2))
  {
    var scores := CalculateScores(board);
    if scores.player1 > scores.player2 {
      return Won(Player1);
    }
    if scores.player2 > scores.player1 {
      return Won(Player2);
    }
    return Tie;
  }
}
