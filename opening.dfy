/** Facts about the starting position `createInitialBoard` builds. */
module Opening {
  import opened Board
  import opened Capture
  import opened Rules

  lemma CentreCounts(g: Grid, x: Cell)
    requires forall m :: At(g, m) == Empty
    ensures Count(Centre(g), x) == if x == Empty then 60 else if x == Stone(Player1) || x == Stone(Player2) then 2 else 0
  {
    var g1 := SetCell(g, Move(3, 3), Stone(Player1));
    var g2 := SetCell(g1, Move(4, 4), Stone(Player1));
    var g3 := SetCell(g2, Move(3, 4), Stone(Player2));
    CountUniform(g, x, Empty);
    CountSet(g, Move(3, 3), Stone(Player1), x);
    CountSet(g1, Move(4, 4), Stone(Player1), x);
    CountSet(g2, Move(3, 4), Stone(Player2), x);
    CountSet(g3, Move(4, 3), Stone(Player2), x);
  }

  /** Two discs each, sixty empty cells. */
  lemma InitialCounts(x: Cell)
    ensures Count(InitialGrid(), x) == if x == Empty then 60 else 2
  {
    CentreDiscs(EmptyGrid());
    CentreCounts(EmptyGrid(), x);
    match x
    case Empty =>
    case Stone(q) => assert q == Player1 || q == Player2;
  }

  /** The cells where Player1 may open. */
  predicate OpeningCell(m: Move)
  {
    m == Move(2, 4) || m == Move(3, 5) || m == Move(4, 2) || m == Move(5, 3)
  }

  /** A Player1 capture on the starting position brackets a single Player2 disc between the
    * move and a centre Player1 disc, which pins the move to one of four cells. */
  lemma OpeningCapture(g: Grid, m: Move, i: int, n: nat)
    requires g == InitialGrid()
    requires 0 <= i < 8 && n >= 1 && Captures(g, m, Directions[i], Player1, n)
    ensures n == 1 && OpeningCell(m)
    ensures m.row + Directions[i].r == OpeningFlip(m).row && m.col + Directions[i].c == OpeningFlip(m).col
  {
    var d := Directions[i];
    var r, c := m.row + d.r, m.col + d.c;
    assert ClosedRun(g, r, c, d, Player1, n);
    assert HoldsAhead(g, r, c, d, 0, Stone(Opponent(Player1)));
    assert n == 1 ==> HoldsAhead(g, r, c, d, 1, Stone(Player1));
    assert n >= 2 ==> HoldsAhead(g, r, c, d, 1, Stone(Player2));
    assert n == 2 ==> HoldsAhead(g, r, c, d, 2, Stone(Player1));
    assert n >= 3 ==> HoldsAhead(g, r, c, d, 2, Stone(Player2));
  }

  /** Player1 can open only on the four cells of `OpeningCell`. */
  lemma OpeningOnly(g: Grid, m: Move)
    requires g == InitialGrid()
    ensures IsLegal(g, m, Player1) ==> OpeningCell(m)
  {
    if IsLegal(g, m, Player1) {
      var f := Flips(g, m, Player1)[0];
      FlipsExactly(g, m, Player1);
      assert f in Flips(g, m, Player1);
      var i, n: nat, k :| 0 <= i < 8 && 1 <= k <= n && Captures(g, m, Directions[i], Player1, n) && Ahead(f, m.row, m.col, Directions[i], k);
      OpeningCapture(g, m, i, n);
    }
  }

  /** The Player2 disc an opening move on `m` flips. */
  function OpeningFlip(m: Move): Move
  {
    if m.row == 2 || m.col == 5 then Move(3, 4) else Move(4, 3)
  }

  /** The index in `Directions` of the ray along which an opening move on `m` captures. */
  function OpeningRay(m: Move): (i: int)
    ensures 0 <= i < 8
  {
    if m.row == 2 then 1 else if m.col == 5 then 2 else if m.col == 2 then 3 else 0
  }

  /** An opening move of Player1 flips nothing but the disc `OpeningFlip` names. */
  lemma OpeningFlipsOnly(g: Grid, m: Move)
    requires g == InitialGrid() && OpeningCell(m)
    ensures forall f :: f in Flips(g, m, Player1) ==> f == OpeningFlip(m)
  {
    FlipsExactly(g, m, Player1);
    forall f | f in Flips(g, m, Player1)
      ensures f == OpeningFlip(m)
    {
      var i, n: nat, k :| 0 <= i < 8 && 1 <= k <= n && Captures(g, m, Directions[i], Player1, n) && Ahead(f, m.row, m.col, Directions[i], k);
      OpeningCapture(g, m, i, n);
    }
  }

  /** An opening move of Player1 flips the disc `OpeningFlip` names. */
  lemma OpeningFlipsSome(g: Grid, m: Move)
    requires g == InitialGrid() && OpeningCell(m)
    ensures OpeningFlip(m) in Flips(g, m, Player1)
  {
    FlipsExactly(g, m, Player1);
    var d := Directions[OpeningRay(m)];
    assert HoldsAhead(g, m.row + d.r, m.col + d.c, d, 0, Stone(Opponent(Player1)));
    assert HoldsAhead(g, m.row + d.r, m.col + d.c, d, 1, Stone(Player1));
    assert Captures(g, m, d, Player1, 1);
    assert Ahead(OpeningFlip(m), m.row, m.col, d, 1);
  }

  /** A list without repeats whose only element is `x`. */
  lemma Singleton(s: seq<Move>, x: Move)
    requires Distinct(s) && x in s && forall y :: y in s ==> y == x
    ensures s == [x]
  {
    assert s[0] in s && s[|s| - 1] in s;
  }

  /** Each opening move of Player1 flips exactly one disc, the one `OpeningFlip` names. */
  lemma OpeningFlipsOne(g: Grid, m: Move)
    requires g == InitialGrid() && OpeningCell(m)
    ensures Flips(g, m, Player1) == [OpeningFlip(m)]
  {
    FlipsExactly(g, m, Player1);
    OpeningFlipsOnly(g, m);
    OpeningFlipsSome(g, m);
    Singleton(Flips(g, m, Player1), OpeningFlip(m));
  }

  /** Player1's opening moves are exactly the four cells of `OpeningCell`, and each flips exactly
    * one disc. */
  lemma OpeningLegal(m: Move)
    ensures IsLegal(InitialGrid(), m, Player1) <==> OpeningCell(m)
    ensures OpeningCell(m) ==> |Flips(InitialGrid(), m, Player1)| == 1
  {
    OpeningOnly(InitialGrid(), m);
    if OpeningCell(m) {
      OpeningFlipsOne(InitialGrid(), m);
    }
  }

  /** The cells of `OpeningCell` in row `r`. */
  function OpeningInRow(r: Idx): seq<Move>
  {
    if r == 2 then [Move(2, 4)]
    else if r == 3 then [Move(3, 5)]
    else if r == 4 then [Move(4, 2)]
    else if r == 5 then [Move(5, 3)]
    else []
  }

  /** A scan of one row that keeps exactly the cells of `OpeningCell`. */
  lemma OpeningRowScan(ok: Move -> bool, r: Idx)
    requires forall m :: ok(m) <==> OpeningCell(m)
    ensures SelectInRow(ok, r, 8) == OpeningInRow(r)
  {
    if r == 2 {
      SelectInRowOne(ok, r, 4, 8);
    } else if r == 3 {
      SelectInRowOne(ok, r, 5, 8);
    } else if r == 4 {
      SelectInRowOne(ok, r, 2, 8);
    } else if r == 5 {
      SelectInRowOne(ok, r, 3, 8);
    } else {
      SelectInRowNone(ok, r, 8);
    }
  }

  /** The cells of `OpeningCell` in the first `r` rows, in row-major order. */
  function OpeningInRows(r: int): (s: seq<Move>)
    requires 0 <= r <= 8
    ensures r > 0 ==> s == OpeningInRows(r - 1) + OpeningInRow(r - 1)
  {
    if r <= 2 then []
    else if r == 3 then [Move(2, 4)]
    else if r == 4 then [Move(2, 4), Move(3, 5)]
    else if r == 5 then [Move(2, 4), Move(3, 5), Move(4, 2)]
    else [Move(2, 4), Move(3, 5), Move(4, 2), Move(5, 3)]
  }

  /** A scan of the first `r` rows that keeps exactly the cells of `OpeningCell`. */
  lemma {:induction false} OpeningRowsScan(ok: Move -> bool, r: int)
    requires 0 <= r <= 8
    requires forall m :: ok(m) <==> OpeningCell(m)
    ensures SelectInRows(ok, r) == OpeningInRows(r)
  {
    if r > 0 {
      OpeningRowsScan(ok, r - 1);
      OpeningRowScan(ok, r - 1);
    }
  }

  /** A row-major scan of the board that keeps exactly the cells of `OpeningCell`. */
  lemma OpeningScan(ok: Move -> bool)
    requires forall m :: ok(m) <==> OpeningCell(m)
    ensures SelectInRows(ok, 8) == [Move(2, 4), Move(3, 5), Move(4, 2), Move(5, 3)]
  {
    OpeningRowsScan(ok, 8);
  }

  /** Player1's opening moves, in the order `getValidMoves` lists them. */
  lemma OpeningMoves()
    ensures ValidMoves(InitialGrid(), Player1) == [Move(2, 4), Move(3, 5), Move(4, 2), Move(5, 3)]
  {
    forall m
      ensures LegalFor(InitialGrid(), Player1)(m) <==> OpeningCell(m)
    {
      OpeningLegal(m);
    }
    OpeningScan(LegalFor(InitialGrid(), Player1));
  }
}
