/** The board model of the Reversi engine: sides, cells, moves and the 8x8 grid.
  * The engine's imperative code works on an `array2<Cell>`; the specification
  * functions work on its value, a `Grid`. */
module Board {

  /** The two sides; the source encodes them as 1 and 2. */
  datatype Player = Player1 | Player2

  /** The other side of the pair. */
  function Opponent(p: Player): (q: Player)
    ensures q != p
  {
    if p == Player1 then Player2 else Player1
  }

  /** A cell is empty (0 in the source) or holds a disc of one side. */
  datatype Cell = Empty | Stone(owner: Player)

  /** A row or column index inside the board. */
  type Idx = i: int | 0 <= i < 8

  /** A position on the board; also what a move names. */
  datatype Move = Move(row: Idx, col: Idx)

  datatype Option<T> = None | Some(value: T)

  /** The value of a board: 8 rows of 8 cells. */
  type Grid = g: seq<seq<Cell>> | |g| == 8 && forall r :: 0 <= r < 8 ==> |g[r]| == 8
    witness seq(8, _ => seq(8, _ => Empty))

  /** The board representation the engine mutates. */
  predicate IsBoard(a: array2<Cell>)
  {
    a.Length0 == 8 && a.Length1 == 8
  }

  /** The current value of a board; `SnapshotAt` relates it to the array cell by cell. */
  ghost function Snapshot(a: array2<Cell>): (g: Grid)
    requires IsBoard(a)
    reads a
  {
    seq(8, r requires 0 <= r < 8 reads a => seq(8, c requires 0 <= c < 8 reads a => a[r, c]))
  }

  lemma SnapshotAt(a: array2<Cell>)
    requires IsBoard(a)
    ensures forall r, c :: 0 <= r < 8 && 0 <= c < 8 ==> Snapshot(a)[r][c] == a[r, c]
  {
  }

  lemma SnapshotCell(a: array2<Cell>, r: Idx, c: Idx)
    requires IsBoard(a)
    ensures Snapshot(a)[r][c] == a[r, c]
  {
  }

  function At(g: Grid, m: Move): Cell
  {
    g[m.row][m.col]
  }

  /** The grid with one cell overwritten. */
  function SetCell(g: Grid, m: Move, x: Cell): (h: Grid)
    ensures At(h, m) == x
    ensures forall n :: n != m ==> At(h, n) == At(g, n)
  {
    g[m.row := g[m.row][m.col := x]]
  }

  /** The grid after writing a `p` disc into each of `cells`, in order. */
  function Paint(g: Grid, cells: seq<Move>, p: Player): Grid
    decreases |cells|
  {
    if cells == [] then g
    else SetCell(Paint(g, cells[..|cells| - 1], p), cells[|cells| - 1], Stone(p))
  }

  /** Painting sets exactly the listed cells to `p` and leaves all others alone. */
  lemma {:induction false} PaintAt(g: Grid, cells: seq<Move>, p: Player, n: Move)
    ensures At(Paint(g, cells, p), n) == if n in cells then Stone(p) else At(g, n)
    decreases |cells|
  {
    if cells != [] {
      var front, last := cells[..|cells| - 1], cells[|cells| - 1];
      assert cells == front + [last];
      PaintAt(g, front, p, n);
    }
  }

  /** Painting one more cell of a list. */
  lemma PaintNext(g: Grid, cells: seq<Move>, p: Player, i: int)
    requires 0 <= i < |cells|
    ensures Paint(g, cells[..i + 1], p) == SetCell(Paint(g, cells[..i], p), cells[i], Stone(p))
  {
    assert cells[..i + 1][..i] == cells[..i];
  }

  /** Painting a list is painting its head, then its tail. */
  lemma {:induction false} PaintFirst(g: Grid, m: Move, cells: seq<Move>, p: Player)
    ensures Paint(g, [m] + cells, p) == Paint(SetCell(g, m, Stone(p)), cells, p)
    decreases |cells|
  {
    if cells == [] {
      assert [m] + cells == [m];
      assert [m][..0] == [];
    } else {
      var front := cells[..|cells| - 1];
      assert ([m] + cells)[..|cells|] == [m] + front;
      PaintFirst(g, m, front, p);
    }
  }

  /** Row-major index of a position. */
  function Index(m: Move): (i: int)
    ensures 0 <= i < 64
  {
    8 * m.row + m.col
  }

  /** Writes one cell of a board. */
  method Put(a: array2<Cell>, m: Move, x: Cell)
    requires IsBoard(a)
    modifies a
    ensures Snapshot(a) == SetCell(old(Snapshot(a)), m, x)
  {
    ghost var before := Snapshot(a);
    SnapshotAt(a);
    a[m.row, m.col] := x;
    SnapshotAt(a);
    ghost var h := SetCell(before, m, x);
    assert forall r | 0 <= r < 8 :: Snapshot(a)[r] == h[r];
  }

  /** The board with no discs. */
  function EmptyGrid(): Grid
  {
    seq(8, _ => seq(8, _ => Empty))
  }

  /** A board whose every cell is empty has no disc in its value. */
  lemma ClearedSnapshot(a: array2<Cell>)
    requires IsBoard(a) && forall r, c :: 0 <= r < 8 && 0 <= c < 8 ==> a[r, c] == Empty
    ensures Snapshot(a) == EmptyGrid()
  {
    SnapshotAt(a);
    assert forall r | 0 <= r < 8 :: Snapshot(a)[r] == EmptyGrid()[r];
  }

  /** The four centre discs written onto a board `g`, in the order `createInitialBoard`
    * writes them. */
  function Centre(g: Grid): Grid
  {
    SetCell(SetCell(SetCell(SetCell(g,
      Move(3, 3), Stone(Player1)), Move(4, 4), Stone(Player1)),
      Move(3, 4), Stone(Player2)), Move(4, 3), Stone(Player2))
  }

  /** The starting position: Player1 on (3,3) and (4,4), Player2 on (3,4) and (4,3), every
    * other cell empty. */
  function InitialGrid(): Grid
  {
    seq(8, r requires 0 <= r < 8 => seq(8, c requires 0 <= c < 8 =>
      if (r == 3 && c == 3) || (r == 4 && c == 4) then Stone(Player1)
      else if (r == 3 && c == 4) || (r == 4 && c == 3) then Stone(Player2)
      else Empty))
  }

  /** The four centre discs written onto a board without discs give the starting position. */
  lemma CentreDiscs(g0: Grid)
    requires forall m :: At(g0, m) == Empty
    ensures Centre(g0) == InitialGrid()
  {
    var g := Centre(g0);
    forall r, c | 0 <= r < 8 && 0 <= c < 8
      ensures g[r][c] == InitialGrid()[r][c]
    {
      assert At(g, Move(r, c)) == At(InitialGrid(), Move(r, c));
    }
    assert forall r | 0 <= r < 8 :: g[r] == InitialGrid()[r];
  }

  /** `createInitialBoard`: a fresh board with the four centre discs. */
  method CreateInitialBoard() returns (board: array2<Cell>)
    ensures fresh(board) && IsBoard(board)
    ensures Snapshot(board) == InitialGrid()
  {
    board := new Cell[8, 8]((r, c) => Empty);
    ClearedSnapshot(board);
    CentreDiscs(EmptyGrid());
    var mid := 8 / 2;
    Put(board, Move(mid - 1, mid - 1), Stone(Player1));
    Put(board, Move(mid, mid), Stone(Player1));
    Put(board, Move(mid - 1, mid), Stone(Player2));
    Put(board, Move(mid, mid - 1), Stone(Player2));
  }
}
