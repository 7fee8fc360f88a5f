/** Which discs a move captures: the eight rays walked by `getFlips`. */
module Capture {
  import opened Board

  /** A step along one compass direction. */
  datatype Dir = Dir(r: int, c: int)

  /** The eight rays in the order the engine walks them: N, S, W, E, NW, NE, SW, SE. */
  const Directions: seq<Dir> :=
    [Dir(-1, 0), Dir(1, 0), Dir(0, -1), Dir(0, 1), Dir(-1, -1), Dir(-1, 1), Dir(1, -1), Dir(1, 1)]

  predicate IsUnit(d: Dir)
  {
    -1 <= d.r <= 1 && -1 <= d.c <= 1 && (d.r != 0 || d.c != 0)
  }

  lemma DirectionsShape()
    ensures |Directions| == 8
    ensures forall i :: 0 <= i < 8 ==> IsUnit(Directions[i])
    ensures forall i, j :: 0 <= i < j < 8 ==> Directions[i] != Directions[j]
  {
  }

  predicate OnBoard(r: int, c: int)
  {
    0 <= r < 8 && 0 <= c < 8
  }

  /** How many more steps along `dx` stay on the board: the walk's termination measure. */
  function Reach(x: int, dx: int): int
  {
    if dx > 0 then 8 - x else if dx < 0 then x + 1 else 0
  }

  function Prepend(s: seq<Move>, o: Option<seq<Move>>): Option<seq<Move>>
  {
    match o
    case Some(t) => Some(s + t)
    case None => None
  }

  lemma PrependNil(o: Option<seq<Move>>)
    ensures Prepend([], o) == o
  {
    if o.Some? {
      assert [] + o.value == o.value;
    }
  }

  lemma PrependPrepend(s: seq<Move>, t: seq<Move>, o: Option<seq<Move>>)
    ensures Prepend(s, Prepend(t, o)) == Prepend(s + t, o)
  {
    if o.Some? {
      assert s + (t + o.value) == (s + t) + o.value;
    }
  }

  /** The walk of one ray from (r, c): the run of opponent discs, if a `p` disc closes it
    * (Some), or None when the run stops at an empty cell or at the edge. */
  function Bracket(g: Grid, r: int, c: int, d: Dir, p: Player): Option<seq<Move>>
    requires IsUnit(d)
    decreases Reach(r, d.r) + Reach(c, d.c)
  {
    if !OnBoard(r, c) then None
    else if g[r][c] == Stone(Opponent(p)) then Prepend([Move(r, c)], Bracket(g, r + d.r, c + d.c, d, p))
    else if g[r][c] == Stone(p) then Some([])
    else None
  }

  /** The discs one ray from the target contributes. */
  function RayFlips(g: Grid, m: Move, d: Dir, p: Player): seq<Move>
    requires IsUnit(d)
  {
    match Bracket(g, m.row + d.r, m.col + d.c, d, p)
    case Some(s) => s
    case None => []
  }

  /** The concatenated contributions of the first `i` rays. */
  function FlipsBelow(g: Grid, m: Move, p: Player, i: int): seq<Move>
    requires 0 <= i <= 8
  {
    if i == 0 then [] else FlipsBelow(g, m, p, i - 1) + RayFlips(g, m, Directions[i - 1], p)
  }

  /** What `getFlips` returns: nothing on an occupied target, otherwise every ray's run. */
  function Flips(g: Grid, m: Move, p: Player): seq<Move>
  {
    if At(g, m) != Empty then [] else FlipsBelow(g, m, p, 8)
  }

  /** `getFlips`: for each of the eight rays in order, appends what `WalkRay` collects. */
  method GetFlips(board: array2<Cell>, row: Idx, col: Idx, player: Player) returns (flips: seq<Move>)
    requires IsBoard(board)
    ensures flips == Flips(Snapshot(board), Move(row, col), player)
  {
    if board[row, col] != Empty {
      return [];
    }
    DirectionsShape();
    flips := [];
    for i := 0 to |Directions|
      invariant flips == FlipsBelow(Snapshot(board), Move(row, col), player, i)
    {
      var lineFlips := WalkRay(board, row, col, Directions[i], player);
      flips := flips + lineFlips;
    }
  }

  /** One pass of the ray loop in `getFlips`: steps from the target along `dir`, collecting
    * opponent discs, and keeps them only when a `player` disc ends the run. */
  method WalkRay(board: array2<Cell>, row: Idx, col: Idx, dir: Dir, player: Player) returns (lineFlips: seq<Move>)
    requires IsBoard(board) && IsUnit(dir)
    ensures lineFlips == RayFlips(Snapshot(board), Move(row, col), dir, player)
  {
    ghost var g := Snapshot(board);
    var opponent := Opponent(player);
    var r, c := row + dir.r, col + dir.c;
    ghost var whole := Bracket(g, r, c, dir, player);
    lineFlips := [];
    PrependNil(whole);
    while 0 <= r < 8 && 0 <= c < 8
      invariant whole == Prepend(lineFlips, Bracket(g, r, c, dir, player))
      decreases Reach(r, dir.r) + Reach(c, dir.c)
    {
      var cell := board[r, c];
      SnapshotCell(board, r, c);
      if cell == Stone(opponent) {
        BracketOpponent(g, r, c, dir, player, lineFlips);
        lineFlips := lineFlips + [Move(r, c)];
        r, c := r + dir.r, c + dir.c;
      } else if cell == Stone(player) {
        BracketOwn(g, r, c, dir, player, lineFlips);
        return;
      } else {
        BracketStop(g, r, c, dir, player, lineFlips);
        lineFlips := [];
        return;
      }
    }
    BracketStop(g, r, c, dir, player, lineFlips);
    lineFlips := [];
  }

  /** The walk steps over an opponent disc and carries it along. */
  lemma BracketOpponent(g: Grid, r: int, c: int, d: Dir, p: Player, line: seq<Move>)
    requires IsUnit(d) && OnBoard(r, c) && g[r][c] == Stone(Opponent(p))
    ensures Prepend(line, Bracket(g, r, c, d, p)) == Prepend(line + [Move(r, c)], Bracket(g, r + d.r, c + d.c, d, p))
  {
    PrependPrepend(line, [Move(r, c)], Bracket(g, r + d.r, c + d.c, d, p));
  }

  /** The walk ends on a disc of its own side and keeps what it carried. */
  lemma BracketOwn(g: Grid, r: int, c: int, d: Dir, p: Player, line: seq<Move>)
    requires IsUnit(d) && OnBoard(r, c) && g[r][c] == Stone(p)
    ensures Prepend(line, Bracket(g, r, c, d, p)) == Some(line)
  {
    assert line + [] == line;
  }

  /** The walk ends on an empty cell or the edge and drops what it carried. */
  lemma BracketStop(g: Grid, r: int, c: int, d: Dir, p: Player, line: seq<Move>)
    requires IsUnit(d) && (!OnBoard(r, c) || g[r][c] == Empty)
    ensures Prepend(line, Bracket(g, r, c, d, p)) == None
  {
  }

  // ---- What the walk means ------------------------------------------------------------

  /** `k` steps of `x`, for a direction component `x` in {-1, 0, 1}. */
  function Scale(k: int, x: int): int
  {
    if x > 0 then k else if x < 0 then -k else 0
  }

  /** `f` lies exactly `k` steps from (r, c) along `d`. */
  predicate Ahead(f: Move, r: int, c: int, d: Dir, k: int)
  {
    f.row == r + Scale(k, d.r) && f.col == c + Scale(k, d.c)
  }

  /** The cell `k` steps from (r, c) along `d` is on the board and holds `x`. */
  predicate HoldsAhead(g: Grid, r: int, c: int, d: Dir, k: int, x: Cell)
  {
    OnBoard(r + Scale(k, d.r), c + Scale(k, d.c)) && g[r + Scale(k, d.r)][c + Scale(k, d.c)] == x
  }

  /** From (r, c) along `d`: `n` opponent discs, then a disc of `p`. */
  ghost predicate ClosedRun(g: Grid, r: int, c: int, d: Dir, p: Player, n: nat)
  {
    (forall k :: 0 <= k < n ==> HoldsAhead(g, r, c, d, k, Stone(Opponent(p))))
    && HoldsAhead(g, r, c, d, n, Stone(p))
  }

  /** From the target `m` along `d`: the `n` cells after it hold opponent discs and the
    * next one a disc of `p`, so a move at `m` brackets those `n` discs. */
  ghost predicate Captures(g: Grid, m: Move, d: Dir, p: Player, n: nat)
  {
    ClosedRun(g, m.row + d.r, m.col + d.c, d, p, n)
  }

  /** Distinct elements. */
  ghost predicate Distinct(s: seq<Move>)
  {
    forall i, j :: 0 <= i < j < |s| ==> s[i] != s[j]
  }

  /** Stepping once along `d` shifts every step count by one. */
  lemma HoldsShift(g: Grid, r: int, c: int, d: Dir, k: int, x: Cell)
    requires IsUnit(d)
    ensures HoldsAhead(g, r + d.r, c + d.c, d, k, x) == HoldsAhead(g, r, c, d, k + 1, x)
  {
  }

  /** A closed run is an opponent disc followed by a closed run one step further. */
  lemma ClosedRunStep(g: Grid, r: int, c: int, d: Dir, p: Player, n: nat)
    requires IsUnit(d)
    ensures ClosedRun(g, r, c, d, p, n + 1) <==>
      HoldsAhead(g, r, c, d, 0, Stone(Opponent(p))) && ClosedRun(g, r + d.r, c + d.c, d, p, n)
  {
    HoldsShift(g, r, c, d, n, Stone(p));
    if HoldsAhead(g, r, c, d, 0, Stone(Opponent(p))) && ClosedRun(g, r + d.r, c + d.c, d, p, n) {
      forall k | 0 <= k < n + 1
        ensures HoldsAhead(g, r, c, d, k, Stone(Opponent(p)))
      {
        if k > 0 {
          HoldsShift(g, r, c, d, k - 1, Stone(Opponent(p)));
        }
      }
    }
    if ClosedRun(g, r, c, d, p, n + 1) {
      var r', c' := r + d.r, c + d.c;
      forall k | 0 <= k < n
        ensures HoldsAhead(g, r', c', d, k, Stone(Opponent(p)))
      {
        HoldsShift(g, r, c, d, k, Stone(Opponent(p)));
      }
    }
  }

  /** A closed walk is a closed run. */
  lemma {:induction false} BracketSome(g: Grid, r: int, c: int, d: Dir, p: Player)
    requires IsUnit(d) && Bracket(g, r, c, d, p).Some?
    ensures ClosedRun(g, r, c, d, p, |Bracket(g, r, c, d, p).value|)
    decreases Reach(r, d.r) + Reach(c, d.c)
  {
    assert OnBoard(r, c);
    if g[r][c] == Stone(Opponent(p)) {
      var r', c' := r + d.r, c + d.c;
      BracketSome(g, r', c', d, p);
      var rest := Bracket(g, r', c', d, p).value;
      assert |Bracket(g, r, c, d, p).value| == |rest| + 1;
      assert HoldsAhead(g, r, c, d, 0, Stone(Opponent(p)));
      ClosedRunStep(g, r, c, d, p, |rest|);
    } else {
      assert HoldsAhead(g, r, c, d, 0, Stone(p));
    }
  }

  /** The walk lists the run cell by cell from its start. */
  lemma {:induction false} BracketCells(g: Grid, r: int, c: int, d: Dir, p: Player)
    requires IsUnit(d) && Bracket(g, r, c, d, p).Some?
    ensures forall k :: 0 <= k < |Bracket(g, r, c, d, p).value| ==> Ahead(Bracket(g, r, c, d, p).value[k], r, c, d, k)
    decreases Reach(r, d.r) + Reach(c, d.c)
  {
    assert OnBoard(r, c);
    if g[r][c] == Stone(Opponent(p)) {
      var r', c' := r + d.r, c + d.c;
      BracketCells(g, r', c', d, p);
      var rest := Bracket(g, r', c', d, p).value;
      var s := Bracket(g, r, c, d, p).value;
      assert s == [Move(r, c)] + rest;
      forall k | 0 <= k < |s|
        ensures Ahead(s[k], r, c, d, k)
      {
        if k > 0 {
          assert Ahead(rest[k - 1], r', c', d, k - 1);
        }
      }
    }
  }

  /** Every closed run is found by the walk. */
  lemma {:induction false} BracketClosed(g: Grid, r: int, c: int, d: Dir, p: Player, n: nat)
    requires IsUnit(d) && ClosedRun(g, r, c, d, p, n)
    ensures Bracket(g, r, c, d, p).Some? && |Bracket(g, r, c, d, p).value| == n
    decreases n
  {
    if n == 0 {
      assert HoldsAhead(g, r, c, d, 0, Stone(p));
    } else {
      ClosedRunStep(g, r, c, d, p, n - 1);
      BracketClosed(g, r + d.r, c + d.c, d, p, n - 1);
    }
  }

  /** Two rays from one target meet only at the same step count along the same direction. */
  lemma RaysApart(f: Move, r: int, c: int, d: Dir, k: int, d': Dir, k': int)
    requires IsUnit(d) && IsUnit(d') && k >= 1 && k' >= 1
    ensures Ahead(f, r, c, d, k) && Ahead(f, r, c, d', k') ==> d == d' && k == k'
  {
  }

  /** The ray's discs, in order, lie 1, 2, ... steps from the target, and a non-empty
    * contribution comes from a closed run of that length. */
  lemma RayCells(g: Grid, m: Move, d: Dir, p: Player)
    requires IsUnit(d)
    ensures forall k :: 0 <= k < |RayFlips(g, m, d, p)| ==> Ahead(RayFlips(g, m, d, p)[k], m.row, m.col, d, k + 1)
    ensures RayFlips(g, m, d, p) != [] ==> Captures(g, m, d, p, |RayFlips(g, m, d, p)|)
  {
    var r, c := m.row + d.r, m.col + d.c;
    if Bracket(g, r, c, d, p).Some? {
      var s := Bracket(g, r, c, d, p).value;
      assert s == RayFlips(g, m, d, p);
      BracketSome(g, r, c, d, p);
      BracketCells(g, r, c, d, p);
      forall k | 0 <= k < |s|
        ensures Ahead(s[k], m.row, m.col, d, k + 1)
      {
        assert Ahead(s[k], r, c, d, k);
      }
    }
  }

  /** One ray never lists a disc twice. */
  lemma RayDistinct(g: Grid, m: Move, d: Dir, p: Player)
    requires IsUnit(d)
    ensures Distinct(RayFlips(g, m, d, p))
  {
    var s := RayFlips(g, m, d, p);
    RayCells(g, m, d, p);
    forall i, j | 0 <= i < j < |s|
      ensures s[i] != s[j]
    {
      RaysApart(s[i], m.row, m.col, d, i + 1, d, j + 1);
    }
  }

  /** What one ray lists is part of a closed run from the target. */
  lemma RaySound(g: Grid, m: Move, d: Dir, p: Player, f: Move)
    requires IsUnit(d) && f in RayFlips(g, m, d, p)
    ensures exists n: nat, k :: 1 <= k <= n && Captures(g, m, d, p, n) && Ahead(f, m.row, m.col, d, k)
  {
    var s := RayFlips(g, m, d, p);
    RayCells(g, m, d, p);
    var k :| 0 <= k < |s| && s[k] == f;
    assert Captures(g, m, d, p, |s|) && Ahead(f, m.row, m.col, d, k + 1);
  }

  /** Every disc of a closed run from the target is listed by that ray. */
  lemma RayComplete(g: Grid, m: Move, d: Dir, p: Player, f: Move, n: nat, k: int)
    requires IsUnit(d) && 1 <= k <= n && Captures(g, m, d, p, n) && Ahead(f, m.row, m.col, d, k)
    ensures f in RayFlips(g, m, d, p)
  {
    var r, c := m.row + d.r, m.col + d.c;
    BracketClosed(g, r, c, d, p, n);
    RayCells(g, m, d, p);
    var s := RayFlips(g, m, d, p);
    assert |s| == n;
    assert Ahead(s[k - 1], m.row, m.col, d, k);
    assert s[k - 1] == f;
  }

  /** One ray contributes exactly the discs of a closed run from the target, each once. */
  lemma RayFlipsExactly(g: Grid, m: Move, d: Dir, p: Player)
    requires IsUnit(d)
    ensures Distinct(RayFlips(g, m, d, p))
    ensures forall f :: f in RayFlips(g, m, d, p) <==>
      exists n: nat, k :: 1 <= k <= n && Captures(g, m, d, p, n) && Ahead(f, m.row, m.col, d, k)
  {
    RayDistinct(g, m, d, p);
    forall f
      ensures f in RayFlips(g, m, d, p) <==> exists n: nat, k :: 1 <= k <= n && Captures(g, m, d, p, n) && Ahead(f, m.row, m.col, d, k)
    {
      if f in RayFlips(g, m, d, p) {
        RaySound(g, m, d, p, f);
      }
      if exists n: nat, k :: 1 <= k <= n && Captures(g, m, d, p, n) && Ahead(f, m.row, m.col, d, k) {
        var n: nat, k :| 1 <= k <= n && Captures(g, m, d, p, n) && Ahead(f, m.row, m.col, d, k);
        RayComplete(g, m, d, p, f, n, k);
      }
    }
  }

  /** The first `i` rays together contribute, each once, exactly the discs of closed runs
    * along those rays. */
  lemma {:induction false} FlipsBelowExactly(g: Grid, m: Move, p: Player, i: int)
    requires 0 <= i <= 8
    ensures Distinct(FlipsBelow(g, m, p, i))
    ensures forall f :: f in FlipsBelow(g, m, p, i) <==>
      exists j, n: nat, k :: 0 <= j < i && 1 <= k <= n && Captures(g, m, Directions[j], p, n) && Ahead(f, m.row, m.col, Directions[j], k)
  {
    DirectionsShape();
    if i > 0 {
      FlipsBelowExactly(g, m, p, i - 1);
      var d := Directions[i - 1];
      RayFlipsExactly(g, m, d, p);
      var front, ray := FlipsBelow(g, m, p, i - 1), RayFlips(g, m, d, p);
      var s := front + ray;
      assert s == FlipsBelow(g, m, p, i);
      forall a, b | 0 <= a < |front| && 0 <= b < |ray|
        ensures front[a] != ray[b]
      {
        var f := front[a];
        assert f in front;
        var j, n: nat, k :| 0 <= j < i - 1 && 1 <= k <= n && Captures(g, m, Directions[j], p, n) && Ahead(f, m.row, m.col, Directions[j], k);
        RayCells(g, m, d, p);
        RaysApart(f, m.row, m.col, Directions[j], k, d, b + 1);
      }
      forall a, b | 0 <= a < b < |s|
        ensures s[a] != s[b]
      {
        if b < |front| {
          assert s[a] == front[a] && s[b] == front[b];
        } else if a >= |front| {
          assert s[a] == ray[a - |front|] && s[b] == ray[b - |front|];
        } else {
          assert s[a] == front[a] && s[b] == ray[b - |front|];
        }
      }
    }
  }

  /** `getFlips`' result, characterised: nothing when the target is occupied; otherwise
    * every disc in an unbroken opponent run that a `p` disc closes, along any of the eight
    * rays, listed once. A run ending on an empty cell or the edge contributes nothing. */
  lemma FlipsExactly(g: Grid, m: Move, p: Player)
    ensures Distinct(Flips(g, m, p))
    ensures forall f :: f in Flips(g, m, p) <==>
      At(g, m) == Empty &&
      exists i, n: nat, k :: 0 <= i < 8 && 1 <= k <= n && Captures(g, m, Directions[i], p, n) && Ahead(f, m.row, m.col, Directions[i], k)
  {
    FlipsBelowExactly(g, m, p, 8);
  }

  /** Every disc a closed walk lists belongs to the opponent. */
  lemma {:induction false} BracketOwned(g: Grid, r: int, c: int, d: Dir, p: Player)
    requires IsUnit(d)
    ensures Bracket(g, r, c, d, p).Some? ==>
      forall f :: f in Bracket(g, r, c, d, p).value ==> At(g, f) == Stone(Opponent(p))
    decreases Reach(r, d.r) + Reach(c, d.c)
  {
    if OnBoard(r, c) && g[r][c] == Stone(Opponent(p)) {
      BracketOwned(g, r + d.r, c + d.c, d, p);
    }
  }

  /** The first `i` rays capture only opponent discs, never the target. */
  lemma {:induction false} FlipsBelowOwned(g: Grid, m: Move, p: Player, i: int)
    requires 0 <= i <= 8
    ensures forall f :: f in FlipsBelow(g, m, p, i) ==> At(g, f) == Stone(Opponent(p))
  {
    if i > 0 {
      FlipsBelowOwned(g, m, p, i - 1);
      DirectionsShape();
      var d := Directions[i - 1];
      BracketOwned(g, m.row + d.r, m.col + d.c, d, p);
      assert FlipsBelow(g, m, p, i) == FlipsBelow(g, m, p, i - 1) + RayFlips(g, m, d, p);
    }
  }

  /** Every captured disc belongs to the opponent, and the target is never among them. */
  lemma FlipsOwned(g: Grid, m: Move, p: Player)
    ensures forall f :: f in Flips(g, m, p) ==> f != m && At(g, f) == Stone(Opponent(p))
    ensures Flips(g, m, p) != [] ==> At(g, m) == Empty
  {
    FlipsBelowOwned(g, m, p, 8);
  }

  /** The neighbour of `m` along `d` is off the board or empty. */
  predicate OpenNeighbour(g: Grid, m: Move, d: Dir)
  {
    var r, c := m.row + d.r, m.col + d.c;
    !OnBoard(r, c) || g[r][c] == Empty
  }

  lemma {:induction false} IsolatedBelow(g: Grid, m: Move, p: Player, i: int)
    requires 0 <= i <= 8
    requires forall j :: 0 <= j < 8 ==> OpenNeighbour(g, m, Directions[j])
    ensures FlipsBelow(g, m, p, i) == []
  {
    if i > 0 {
      IsolatedBelow(g, m, p, i - 1);
      assert OpenNeighbour(g, m, Directions[i - 1]);
    }
  }

  /** A move with no disc next to it captures nothing. */
  lemma IsolatedCapturesNothing(g: Grid, m: Move, p: Player)
    requires forall j :: 0 <= j < 8 ==> OpenNeighbour(g, m, Directions[j])
    ensures Flips(g, m, p) == []
  {
    IsolatedBelow(g, m, p, 8);
  }
}
