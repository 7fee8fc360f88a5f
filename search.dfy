/** The strategic AI's game-tree search: a depth-limited minimax over the positional
  * evaluation, and the alpha-beta search that computes it with pruning. */
module Search {
  import opened Board
  import opened Rules
  import opened Evaluation

  /** `STRATEGIC_DEPTH`. */
  const StrategicDepth: nat := 4

  /** Stands for the source's `Infinity`: larger than any evaluation. */
  const Infinity: int := 1_000_000

  function Max(a: int, b: int): int
  {
    if a >= b then a else b
  }

  function Min(a: int, b: int): int
  {
    if a <= b then a else b
  }

  /** The side to move: `p` when maximising, its opponent when minimising. */
  function Mover(maximizing: bool, p: Player): Player
  {
    if maximizing then p else Opponent(p)
  }

  /** The rules a game-tree search consults: whether a position is final, the moves of a
    * side, the position a move leads to, and the evaluation for a side. */
  datatype Game = Game(over: Grid -> bool, moves: (Grid, Player) -> seq<Move>,
                       next: (Grid, Move, Player) -> Grid, eval: (Grid, Player) -> int)

  /** Reversi's rules: `checkGameOver`, `getValidMoves`, the board `makeMove` returns, and
    * `evaluateBoard`. */
  const Reversi: Game := Game(GameOver, ValidMoves, Play, Evaluate)

  /** `G` agrees with Reversi's rules. Each link is applied only where the method at hand
    * already speaks of the concrete rule, so that reasoning about a search loop never
    * needs to look inside the rules. */
  ghost predicate Models(G: Game)
  {
    && (forall g {:trigger GameOver(g)} :: G.over(g) == GameOver(g))
    && (forall g, p {:trigger ValidMoves(g, p)} :: G.moves(g, p) == ValidMoves(g, p))
    && (forall g, m, p {:trigger Play(g, m, p)} :: G.next(g, m, p) == Play(g, m, p))
    && (forall g, p {:trigger Evaluate(g, p)} :: G.eval(g, p) == Evaluate(g, p))
  }

  lemma ReversiModels()
    ensures Models(Reversi)
  {
  }

  /** Every evaluation of the game lies within `MaxEval`. */
  ghost predicate EvalBounded(G: Game)
  {
    forall g, p :: -MaxEval <= G.eval(g, p) <= MaxEval
  }

  lemma ReversiEvalBounded()
    ensures EvalBounded(Reversi)
  {
    forall g, p
      ensures -MaxEval <= Reversi.eval(g, p) <= MaxEval
    {
      EvaluateBounded(g, p);
    }
  }

  /** The value of `g` searched `depth` plies deep for `p`, without pruning: the evaluation at
    * depth 0 or when the game is over; a side without a move passes, which costs one ply and
    * hands the move over; otherwise the best child for the side to move. */
  function Minimax(G: Game, g: Grid, depth: nat, maximizing: bool, p: Player): int
    decreases depth, 1
  {
    if depth == 0 || G.over(g) then G.eval(g, p)
    else
      var moves := G.moves(g, Mover(maximizing, p));
      if moves == [] then Minimax(G, g, depth - 1, !maximizing, p)
      else Backup(G, g, moves, |moves|, depth, maximizing, p)
  }

  /** The best value for the side to move over the children the first `k` of `moves` lead to,
    * searched `depth - 1` plies deep; the sentinel `-Infinity` (maximising) or `Infinity`
    * (minimising) when `k == 0`. */
  function Backup(G: Game, g: Grid, moves: seq<Move>, k: nat, depth: nat, maximizing: bool, p: Player): int
    requires k <= |moves| && depth >= 1
    decreases depth, 0, k
  {
    if k == 0 then (if maximizing then -Infinity else Infinity)
    else
      var v := Minimax(G, G.next(g, moves[k - 1], Mover(maximizing, p)), depth - 1, !maximizing, p);
      if maximizing then Max(Backup(G, g, moves, k - 1, depth, maximizing, p), v)
      else Min(Backup(G, g, moves, k - 1, depth, maximizing, p), v)
  }

  /** Every minimax value is an evaluation, so it lies within `MaxEval`. */
  lemma {:induction false} MinimaxBounded(G: Game, g: Grid, depth: nat, maximizing: bool, p: Player)
    requires EvalBounded(G)
    ensures -MaxEval <= Minimax(G, g, depth, maximizing, p) <= MaxEval
    decreases depth, 1
  {
    if depth > 0 && !G.over(g) {
      var moves := G.moves(g, Mover(maximizing, p));
      if moves == [] {
        MinimaxBounded(G, g, depth - 1, !maximizing, p);
      } else {
        BackupBounded(G, g, moves, |moves|, depth, maximizing, p);
      }
    }
  }

  lemma {:induction false} BackupBounded(G: Game, g: Grid, moves: seq<Move>, k: nat, depth: nat, maximizing: bool, p: Player)
    requires EvalBounded(G)
    requires 1 <= k <= |moves| && depth >= 1
    ensures -MaxEval <= Backup(G, g, moves, k, depth, maximizing, p) <= MaxEval
    decreases depth, 0, k
  {
    MinimaxBounded(G, G.next(g, moves[k - 1], Mover(maximizing, p)), depth - 1, !maximizing, p);
    if k > 1 {
      BackupBounded(G, g, moves, k - 1, depth, maximizing, p);
    }
  }

  /** Every Reversi minimax value lies within `MaxEval`. */
  lemma ReversiMinimaxBounded(g: Grid, depth: nat, maximizing: bool, p: Player)
    ensures -MaxEval <= Minimax(Reversi, g, depth, maximizing, p) <= MaxEval
  {
    ReversiEvalBounded();
    MinimaxBounded(Reversi, g, depth, maximizing, p);
  }

  /** Looking at more children never lowers the maximiser's best value. */
  lemma {:induction false} BackupGrows(G: Game, g: Grid, moves: seq<Move>, k: nat, n: nat, depth: nat, p: Player)
    requires k <= n <= |moves| && depth >= 1
    ensures Backup(G, g, moves, k, depth, true, p) <= Backup(G, g, moves, n, depth, true, p)
    decreases n - k
  {
    if k < n {
      BackupGrows(G, g, moves, k, n - 1, depth, p);
    }
  }

  /** Looking at more children never raises the minimiser's best value. */
  lemma {:induction false} BackupShrinks(G: Game, g: Grid, moves: seq<Move>, k: nat, n: nat, depth: nat, p: Player)
    requires k <= n <= |moves| && depth >= 1
    ensures Backup(G, g, moves, n, depth, false, p) <= Backup(G, g, moves, k, depth, false, p)
    decreases n - k
  {
    if k < n {
      BackupShrinks(G, g, moves, k, n - 1, depth, p);
    }
  }

  /** The fail-soft alpha-beta contract `alphaBeta` keeps for a window `alpha < beta`: a value
    * at or below `alpha` bounds the minimax value from above, one at or above `beta` bounds it
    * from below, and one strictly inside the window is exact. */
  predicate Bounds(v: int, alpha: int, beta: int, mm: int)
  {
    (v <= alpha ==> mm <= v) && (v >= beta ==> mm >= v) && (alpha < v < beta ==> v == mm)
  }

  /** `checkGameOver` on a board, seen as the rule `G.over`. */
  method IsOver(ghost G: Game, board: array2<Cell>) returns (over: bool)
    requires Models(G) && IsBoard(board)
    ensures over == G.over(Snapshot(board))
  {
    over := CheckGameOver(board);
  }

  /** `getValidMoves` on a board, seen as the rule `G.moves`. */
  method MovesOf(ghost G: Game, board: array2<Cell>, player: Player) returns (moves: seq<Move>)
    requires Models(G) && IsBoard(board)
    ensures moves == G.moves(Snapshot(board), player)
  {
    moves := GetValidMoves(board, player);
  }

  /** `evaluateBoard` on a board, seen as the rule `G.eval`, which lies within `MaxEval`. */
  method Leaf(ghost G: Game, board: array2<Cell>, player: Player) returns (value: int)
    requires Models(G) && IsBoard(board)
    ensures value == G.eval(Snapshot(board), player)
    ensures -MaxEval <= value <= MaxEval
  {
    value := EvaluateBoard(board, player);
    EvaluateBounded(Snapshot(board), player);
  }

  /** `alphaBeta`: minimax with alpha-beta pruning. With a window wider than every evaluation
    * (the root call's `-Infinity, Infinity`) it computes the minimax value exactly. */
  method AlphaBeta(ghost G: Game, board: array2<Cell>, depth: nat, alpha: int, beta: int, maximizing: bool, player: Player)
    returns (value: int)
    requires Models(G) && IsBoard(board)
    requires -Infinity <= alpha && beta <= Infinity
    ensures alpha < beta ==> Bounds(value, alpha, beta, Minimax(G, Snapshot(board), depth, maximizing, player))
    ensures alpha < -MaxEval && MaxEval < beta ==> value == Minimax(G, Snapshot(board), depth, maximizing, player)
    ensures -MaxEval <= value <= MaxEval
    decreases depth, 1
  {
    var over := IsOver(G, board);
    if depth == 0 || over {
      value := Leaf(G, board, player);
      return;
    }
    var mover := if maximizing then player else Opponent(player);
    var moves := MovesOf(G, board, mover);
    if |moves| == 0 {
      value := AlphaBeta(G, board, depth - 1, alpha, beta, !maximizing, player);
      return;
    }
    if maximizing {
      value := MaxNode(G, board, moves, depth, alpha, beta, player);
    } else {
      value := MinNode(G, board, moves, depth, alpha, beta, player);
    }
  }

  /** The value `alphaBeta` finds, one ply down, for the position `mover`'s move `m` leads to:
    * `makeMove` followed by the recursive call. */
  method AfterMove(ghost G: Game, board: array2<Cell>, m: Move, mover: Player, depth: nat, alpha: int, beta: int,
                   maximizing: bool, player: Player)
    returns (value: int)
    requires Models(G) && IsBoard(board)
    requires -Infinity <= alpha && beta <= Infinity
    ensures alpha < beta ==>
      Bounds(value, alpha, beta, Minimax(G, G.next(Snapshot(board), m, mover), depth, maximizing, player))
    ensures -MaxEval <= value <= MaxEval
    decreases depth, 2
  {
    var newBoard, _ := MakeMove(board, m, mover);
    value := AlphaBeta(G, newBoard, depth, alpha, beta, maximizing, player);
  }

  /** What the maximiser's loop of `alphaBeta` knows after trying the first `i` moves: `a` is
    * `alpha` raised to the best value so far, `maxEval` (the sentinel `-Infinity` before the
    * first move); and while the window is open, `maxEval` is below `beta`, bounds the minimax
    * value of those children from above, and equals it once it exceeds `alpha`. */
  ghost predicate MaxLoop(G: Game, g: Grid, moves: seq<Move>, i: nat, depth: nat, p: Player,
                          alpha: int, beta: int, a: int, maxEval: int)
    requires i <= |moves| && depth >= 1
  {
    a == Max(alpha, maxEval) && (i == 0 <==> maxEval == -Infinity) && (i > 0 ==> -MaxEval <= maxEval <= MaxEval)
    && (alpha < beta ==> maxEval < beta && Backup(G, g, moves, i, depth, true, p) <= maxEval
                         && (alpha < maxEval ==> maxEval <= Backup(G, g, moves, i, depth, true, p)))
  }

  /** One pass of the maximiser's loop: the child's fail-soft value `v` keeps `MaxLoop`, or, when
    * it closes the window, already gives the node's fail-soft value. */
  lemma MaxStep(G: Game, g: Grid, moves: seq<Move>, i: nat, depth: nat, p: Player,
                alpha: int, beta: int, a: int, maxEval: int, v: int)
    requires i < |moves| && depth >= 1 && MaxLoop(G, g, moves, i, depth, p, alpha, beta, a, maxEval)
    requires -MaxEval <= v <= MaxEval
    requires a < beta ==> Bounds(v, a, beta, Minimax(G, G.next(g, moves[i], p), depth - 1, false, p))
    ensures Max(a, v) < beta ==> MaxLoop(G, g, moves, i + 1, depth, p, alpha, beta, Max(a, v), Max(maxEval, v))
    ensures beta <= Max(a, v) && alpha < beta ==>
      Bounds(Max(maxEval, v), alpha, beta, Backup(G, g, moves, |moves|, depth, true, p))
  {
    BackupGrows(G, g, moves, i + 1, |moves|, depth, p);
  }

  /** The maximiser's loop run to the end gives the node's fail-soft value. */
  lemma MaxDone(G: Game, g: Grid, moves: seq<Move>, depth: nat, p: Player,
                alpha: int, beta: int, a: int, maxEval: int)
    requires moves != [] && depth >= 1 && MaxLoop(G, g, moves, |moves|, depth, p, alpha, beta, a, maxEval)
    ensures alpha < beta ==> Bounds(maxEval, alpha, beta, Backup(G, g, moves, |moves|, depth, true, p))
    ensures -MaxEval <= maxEval <= MaxEval
  {
  }

  /** The maximiser's loop of `alphaBeta`: try each move in turn, raise `alpha`, and stop once
    * `beta <= alpha`. */
  method MaxNode(ghost G: Game, board: array2<Cell>, moves: seq<Move>, depth: nat, alpha: int, beta: int, player: Player)
    returns (maxEval: int)
    requires Models(G) && IsBoard(board) && depth >= 1 && moves != []
    requires -Infinity <= alpha && beta <= Infinity
    ensures alpha < beta ==> Bounds(maxEval, alpha, beta, Backup(G, Snapshot(board), moves, |moves|, depth, true, player))
    ensures -MaxEval <= maxEval <= MaxEval
    decreases depth, 0
  {
    ghost var g := Snapshot(board);
    maxEval := -Infinity;
    var a := alpha;
    var i := 0;
    while i < |moves|
      invariant 0 <= i <= |moves| && g == Snapshot(board)
      invariant MaxLoop(G, g, moves, i, depth, player, alpha, beta, a, maxEval)
    {
      var evalScore := AfterMove(G, board, moves[i], player, depth - 1, a, beta, false, player);
      MaxStep(G, g, moves, i, depth, player, alpha, beta, a, maxEval, evalScore);
      maxEval := Max(maxEval, evalScore);
      a := Max(a, evalScore);
      if beta <= a {
        break;
      }
      i := i + 1;
    }
    if i == |moves| {
      MaxDone(G, g, moves, depth, player, alpha, beta, a, maxEval);
    }
  }

  /** What the minimiser's loop of `alphaBeta` knows after trying the first `i` moves; the
    * mirror image of `MaxLoop`. */
  ghost predicate MinLoop(G: Game, g: Grid, moves: seq<Move>, i: nat, depth: nat, p: Player,
                          alpha: int, beta: int, b: int, minEval: int)
    requires i <= |moves| && depth >= 1
  {
    b == Min(beta, minEval) && (i == 0 <==> minEval == Infinity) && (i > 0 ==> -MaxEval <= minEval <= MaxEval)
    && (alpha < beta ==> alpha < minEval && minEval <= Backup(G, g, moves, i, depth, false, p)
                         && (minEval < beta ==> Backup(G, g, moves, i, depth, false, p) <= minEval))
  }

  /** One pass of the minimiser's loop; the mirror image of `MaxStep`. */
  lemma MinStep(G: Game, g: Grid, moves: seq<Move>, i: nat, depth: nat, p: Player,
                alpha: int, beta: int, b: int, minEval: int, v: int)
    requires i < |moves| && depth >= 1 && MinLoop(G, g, moves, i, depth, p, alpha, beta, b, minEval)
    requires -MaxEval <= v <= MaxEval
    requires alpha < b ==> Bounds(v, alpha, b, Minimax(G, G.next(g, moves[i], Opponent(p)), depth - 1, true, p))
    ensures alpha < Min(b, v) ==> MinLoop(G, g, moves, i + 1, depth, p, alpha, beta, Min(b, v), Min(minEval, v))
    ensures Min(b, v) <= alpha && alpha < beta ==>
      Bounds(Min(minEval, v), alpha, beta, Backup(G, g, moves, |moves|, depth, false, p))
  {
    BackupShrinks(G, g, moves, i + 1, |moves|, depth, p);
  }

  /** The minimiser's loop run to the end gives the node's fail-soft value. */
  lemma MinDone(G: Game, g: Grid, moves: seq<Move>, depth: nat, p: Player,
                alpha: int, beta: int, b: int, minEval: int)
    requires moves != [] && depth >= 1 && MinLoop(G, g, moves, |moves|, depth, p, alpha, beta, b, minEval)
    ensures alpha < beta ==> Bounds(minEval, alpha, beta, Backup(G, g, moves, |moves|, depth, false, p))
    ensures -MaxEval <= minEval <= MaxEval
  {
  }

  /** The minimiser's loop of `alphaBeta`: try each move of the opponent in turn, lower `beta`,
    * and stop once `beta <= alpha`. */
  method MinNode(ghost G: Game, board: array2<Cell>, moves: seq<Move>, depth: nat, alpha: int, beta: int, player: Player)
    returns (minEval: int)
    requires Models(G) && IsBoard(board) && depth >= 1 && moves != []
    requires -Infinity <= alpha && beta <= Infinity
    ensures alpha < beta ==> Bounds(minEval, alpha, beta, Backup(G, Snapshot(board), moves, |moves|, depth, false, player))
    ensures -MaxEval <= minEval <= MaxEval
    decreases depth, 0
  {
    ghost var g := Snapshot(board);
    minEval := Infinity;
    var b := beta;
    var opponent := if player == Player1 then Player2 else Player1;
    var i := 0;
    while i < |moves|
      invariant 0 <= i <= |moves| && g == Snapshot(board)
      invariant MinLoop(G, g, moves, i, depth, player, alpha, beta, b, minEval)
    {
      var evalScore := AfterMove(G, board, moves[i], opponent, depth - 1, alpha, b, true, player);
      MinStep(G, g, moves, i, depth, player, alpha, beta, b, minEval, evalScore);
      minEval := Min(minEval, evalScore);
      b := Min(b, evalScore);
      if b <= alpha {
        break;
      }
      i := i + 1;
    }
    if i == |moves| {
      MinDone(G, g, moves, depth, player, alpha, beta, b, minEval);
    }
  }
}
