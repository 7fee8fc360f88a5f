/** The three AI strategies and `getAiMove`, which dispatches on the strategy's name. */
module Strategies {
  import opened Board
  import opened Capture
  import opened Rules
  import opened Search

  // ---- Random ---------------------------------------------------------------------------

  /** The index `Math.floor(random * n)` that `getRandomMove` picks, for a draw `random` of
    * `Math.random` in [0, 1). */
  function RandomIndex(n: nat, random: real): (i: int)
    requires n > 0 && 0.0 <= random < 1.0
    ensures 0 <= i < n
  {
    assert random * (n as real) < 1.0 * (n as real);
    (random * (n as real)).Floor
  }

  /** `getRandomMove`: no move from an empty list, otherwise one of the listed moves chosen by
    * the draw `random`. */
  function RandomMove(validMoves: seq<Move>, random: real): (r: Option<Move>)
    requires 0.0 <= random < 1.0
    ensures r == None <==> validMoves == []
    ensures r.Some? ==> r.value in validMoves
  {
    if |validMoves| == 0 then None
    else Some(validMoves[RandomIndex(|validMoves|, random)])
  }

  /** Every listed move is the choice of some draw: the draw `i / n` picks the `i`-th. */
  lemma RandomCovers(validMoves: seq<Move>, i: int)
    requires 0 <= i < |validMoves|
    ensures var random := (i as real) / (|validMoves| as real);
      0.0 <= random < 1.0 && RandomMove(validMoves, random) == Some(validMoves[i])
  {
    var n := |validMoves| as real;
    var random := (i as real) / n;
    DivMul(i as real, n);
    assert random * n == i as real;
    Scale(random, n);
    assert RandomIndex(|validMoves|, random) == (i as real).Floor == i;
  }

  lemma DivMul(x: real, n: real)
    requires n > 0.0
    ensures (x / n) * n == x
  {
  }

  lemma Scale(x: real, n: real)
    requires n > 0.0
    ensures x * n < n ==> x < 1.0
    ensures 0.0 <= x * n ==> 0.0 <= x
  {
  }

  // ---- Choosing the first best ----------------------------------------------------------

  /** The first index among the first `k` whose value is largest: the index a scan keeps when
    * it replaces its choice only on a strictly larger value. */
  function FirstBest(values: seq<int>, k: nat): (i: nat)
    requires 1 <= k <= |values|
    ensures i < k
    ensures forall j :: 0 <= j < k ==> values[j] <= values[i]
    ensures forall j :: 0 <= j < i ==> values[j] < values[i]
    decreases k
  {
    if k == 1 then 0
    else
      var i := FirstBest(values, k - 1);
      if values[k - 1] > values[i] then k - 1 else i
  }

  /** Being largest, and larger than everything before it, pins the index down. */
  lemma FirstBestUnique(values: seq<int>, k: nat, i: nat)
    requires 1 <= k <= |values| && i < k
    requires forall j :: 0 <= j < k ==> values[j] <= values[i]
    requires forall j :: 0 <= j < i ==> values[j] < values[i]
    ensures i == FirstBest(values, k)
  {
    var b := FirstBest(values, k);
    assert values[b] <= values[i] && values[i] <= values[b];
  }

  // ---- Greedy ---------------------------------------------------------------------------

  /** How many discs each listed move flips. */
  function FlipCounts(g: Grid, moves: seq<Move>, p: Player): seq<int>
  {
    seq(|moves|, j requires 0 <= j < |moves| => |Flips(g, moves[j], p)|)
  }

  /** `getGreedyMove`: the first listed move that flips the most discs. */
  method GetGreedyMove(board: array2<Cell>, validMoves: seq<Move>, player: Player) returns (best: Option<Move>)
    requires IsBoard(board)
    ensures best == None <==> validMoves == []
    ensures best.Some? ==> best.value in validMoves
    ensures validMoves != [] ==>
      best == Some(validMoves[FirstBest(FlipCounts(Snapshot(board), validMoves, player), |validMoves|)])
  {
    if |validMoves| == 0 {
      return None;
    }
    ghost var counts := FlipCounts(Snapshot(board), validMoves, player);
    best := None;
    var maxFlips := -1;
    ghost var bi := 0;
    for i := 0 to |validMoves|
      invariant i == 0 ==> best == None && maxFlips == -1
      invariant i > 0 ==> bi == FirstBest(counts, i) && best == Some(validMoves[bi]) && maxFlips == counts[bi]
    {
      var move := validMoves[i];
      var flips := GetFlips(board, move.row, move.col, player);
      if |flips| > maxFlips {
        maxFlips := |flips|;
        best := Some(move);
        bi := i;
      }
    }
  }

  /** The greedy choice flips at least as many discs as any listed move, and more than every
    * move listed before it. */
  lemma GreedyMaximizes(g: Grid, validMoves: seq<Move>, p: Player, j: int)
    requires 0 <= j < |validMoves|
    ensures var i := FirstBest(FlipCounts(g, validMoves, p), |validMoves|);
      |Flips(g, validMoves[j], p)| <= |Flips(g, validMoves[i], p)|
      && (j < i ==> |Flips(g, validMoves[j], p)| < |Flips(g, validMoves[i], p)|)
  {
    var counts := FlipCounts(g, validMoves, p);
    var i := FirstBest(counts, |validMoves|);
    assert counts[j] == |Flips(g, validMoves[j], p)| && counts[i] == |Flips(g, validMoves[i], p)|;
  }

  // ---- Strategic ------------------------------------------------------------------------

  /** The value of each listed move for `p`: the minimax value, `StrategicDepth - 1` plies
    * deep with the opponent to move, of the position the move leads to. */
  ghost function RootValues(G: Game, g: Grid, moves: seq<Move>, p: Player): seq<int>
  {
    seq(|moves|, j requires 0 <= j < |moves| => Minimax(G, G.next(g, moves[j], p), StrategicDepth - 1, false, p))
  }

  /** `getStrategicMove`: searches each listed move with a full-window `alphaBeta` and keeps
    * the first move of highest value. */
  method GetStrategicMove(ghost G: Game, board: array2<Cell>, validMoves: seq<Move>, player: Player)
    returns (best: Option<Move>)
    requires Models(G) && IsBoard(board)
    ensures best == None <==> validMoves == []
    ensures best.Some? ==> best.value in validMoves
    ensures validMoves != [] ==>
      best == Some(validMoves[FirstBest(RootValues(G, Snapshot(board), validMoves, player), |validMoves|)])
  {
    if |validMoves| == 0 {
      return None;
    }
    ghost var values := RootValues(G, Snapshot(board), validMoves, player);
    best := Some(validMoves[0]);
    var bestValue := -Infinity;
    ghost var bi := 0;
    for i := 0 to |validMoves|
      invariant i == 0 ==> best == Some(validMoves[0]) && bestValue == -Infinity
      invariant i > 0 ==> bi == FirstBest(values, i) && best == Some(validMoves[bi]) && bestValue == values[bi]
    {
      var move := validMoves[i];
      var moveValue := AfterMove(G, board, move, player, StrategicDepth - 1, -Infinity, Infinity, false, player);
      if moveValue > bestValue {
        bestValue := moveValue;
        best := Some(move);
        bi := i;
      }
    }
  }

  // ---- Dispatch -------------------------------------------------------------------------

  /** `getAiMove`: no move when `player` has none; otherwise the choice of the named strategy,
    * where any name other than "Greedy" and "Strategic" chooses at random with the draw
    * `random`. */
  method GetAiMove(board: array2<Cell>, player: Player, strategy: string, random: real)
    returns (move: Option<Move>)
    requires IsBoard(board) && 0.0 <= random < 1.0
    ensures move == None <==> ValidMoves(Snapshot(board), player) == []
    ensures move.Some? ==> IsLegal(Snapshot(board), move.value, player)
    ensures var vm := ValidMoves(Snapshot(board), player);
      vm != [] && strategy == "Greedy" ==>
        move == Some(vm[FirstBest(FlipCounts(Snapshot(board), vm, player), |vm|)])
    ensures var vm := ValidMoves(Snapshot(board), player);
      vm != [] && strategy == "Strategic" ==>
        move == Some(vm[FirstBest(RootValues(Reversi, Snapshot(board), vm, player), |vm|)])
    ensures strategy != "Greedy" && strategy != "Strategic" ==>
      move == RandomMove(ValidMoves(Snapshot(board), player), random)
  {
    var validMoves := GetValidMoves(board, player);
    if |validMoves| == 0 {
      return None;
    }
    match strategy {
      case "Random" =>
        move := RandomMove(validMoves, random);
      case "Greedy" =>
        move := GetGreedyMove(board, validMoves, player);
      case "Strategic" =>
        ReversiModels();
        move := GetStrategicMove(Reversi, board, validMoves, player);
      case _ =>
        move := RandomMove(validMoves, random);
    }
    if move.Some? {
      ListedIsLegal(Snapshot(board), player, move.value);
    }
  }

  lemma ListedIsLegal(g: Grid, p: Player, m: Move)
    requires m in ValidMoves(g, p)
    ensures IsLegal(g, m, p)
  {
    ValidMovesExactly(g, p);
  }
}
