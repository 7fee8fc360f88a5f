# Reversi rules engine and AI, in Dafny

This project models `src/lib/reversi-logic.ts` of a Reversi (Othello) web game. It covers two parts:

- **The rules engine.** These functions set up the board, find the discs a move would flip, list the legal moves, play a move, count discs, decide when the game is over and say who has won.
- **The computer opponent.** It has three strategies:
  - random;
  - greedy, which takes the most flips;
  - strategic, which runs a depth-4 alpha-beta search over a piece-square table.

`getAiMove` dispatches on the strategy's name.

The source mutates boards with loops. The model keeps that form: a board is an 8x8 `array2<Cell>`, and each looping operation is a `method` with loop invariants. Each method is specified against functions on the board's value (`Board.Snapshot`, a `Grid`). The rules methods and `evaluateBoard` are proved equal to such a function. `Search.AlphaBeta`, `Search.MaxNode` and `Search.MinNode` are proved to give a fail-soft bound on the unpruned `Search.Minimax` (or `Search.Backup`) value. That bound is an equality strictly inside the window, and with the root's full window. The properties the game relies on are then proved as lemmas about those functions:

- which moves are legal;
- that only the flipped cells change;
- that disc counts are conserved;
- the opening position;
- the symmetry of the evaluation;
- that alpha-beta with a full window computes plain minimax.

Files and modules:

| file | module | contents |
|---|---|---|
| `board.dfy` | `Board` | sides, cells, moves, the grid, the starting position, `createInitialBoard` |
| `flips.dfy` | `Capture` | the eight directions, `getFlips`, and the geometry of a capture |
| `rules.dfy` | `Rules` | `getValidMoves`, `makeMove`, `calculateScores`, `checkGameOver`, `getWinner` |
| `opening.dfy` | `Opening` | facts about the starting position |
| `evaluation.dfy` | `Evaluation` | `pieceSquareTable`, `evaluateBoard` |
| `search.dfy` | `Search` | a functional `Minimax`, `alphaBeta` and its two loops |
| `strategies.dfy` | `Strategies` | `getRandomMove`, `getGreedyMove`, `getStrategicMove`, `getAiMove` |

The search is written once, over a record `Search.Game` that holds the four rules it consults:

- whether the game is over;
- the moves of a side;
- the position after a move;
- the evaluation.

`Search.Reversi` is that record built from this game's rules. The methods take the record as a ghost parameter `G` and require `Search.Models(G)`, which says that `G` agrees with the concrete rules. `getAiMove` passes `Search.Reversi` (`Search.ReversiModels`).

## Model

| member | source | states |
|---|---|---|
| Board.Opponent | src/lib/reversi-logic.ts:31 | the opponent of a side is the other side |
| Board.SetCell | src/lib/reversi-logic.ts:72-76 | writing one cell sets that cell and leaves every other cell unchanged |
| Board.PaintAt | src/lib/reversi-logic.ts:72-76 | after writing a side's disc into a list of cells, a cell holds that disc if it is listed and is unchanged otherwise |
| Board.Put | src/lib/reversi-logic.ts:21-24 | one array write changes exactly one cell of the board's value (used for the four writes of `createInitialBoard` and for the writes of `makeMove` at lines 74 and 76) |
| Board.CentreDiscs | src/lib/reversi-logic.ts:18-26 | the four centre discs written on an empty board give the starting position: Player1 on (3,3) and (4,4), Player2 on (3,4) and (4,3), all else empty |
| Board.CreateInitialBoard | src/lib/reversi-logic.ts:18-26 | returns a fresh 8x8 board whose value is the starting position |
| Capture.DirectionsShape | src/lib/reversi-logic.ts:13-16 | there are eight directions, each a distinct unit step |
| Capture.GetFlips | src/lib/reversi-logic.ts:28-53 | the loop computes the flips function: nothing for an occupied cell, else each ray's bracketed run in direction order |
| Capture.WalkRay | src/lib/reversi-logic.ts:35-48 | the inner `while` loop returns the run of opponent discs when a `player` disc closes it, and nothing when an empty cell or the edge ends it |
| Capture.FlipsExactly | src/lib/reversi-logic.ts:28-53 | flips have no duplicates; a cell is flipped iff the target is empty and the cell lies inside an unbroken opponent run on one of the eight rays that a `player` disc closes |
| Capture.FlipsOwned | src/lib/reversi-logic.ts:28-53 | every flipped cell holds an opponent disc and differs from the target; a move with flips targets an empty cell |
| Capture.IsolatedCapturesNothing | src/lib/reversi-logic.ts:38-48 | a target whose eight neighbours are empty or off the board flips nothing |
| Rules.ValidMovesExactly | src/lib/reversi-logic.ts:55-67 | the listed moves are exactly the empty cells with a non-empty flip list, in strictly increasing row-major order, without duplicates |
| Rules.GetValidMoves | src/lib/reversi-logic.ts:55-67 | the nested loop returns the row-major list of legal moves |
| Rules.PlayAt | src/lib/reversi-logic.ts:69-80 | after a move, the target and the flipped cells hold the mover's disc when there are flips; every other cell, and every cell when there are none, is unchanged |
| Rules.MakeMove | src/lib/reversi-logic.ts:69-80 | returns a fresh board with the played position and `flipped` = the move followed by its flips; the input board is not modified |
| Rules.CalculateScores | src/lib/reversi-logic.ts:82-91 | the nested loop counts each side's discs |
| Rules.CountTotal | src/lib/reversi-logic.ts:82-91 | Player1 discs + Player2 discs + empty cells = 64 |
| Rules.PlayCount | src/lib/reversi-logic.ts:69-80 | a legal move raises the mover's count by 1 + number of flips, lowers the opponent's by the number of flips, and fills one empty cell |
| Rules.GameOverExactly | src/lib/reversi-logic.ts:93-97 | the game is over exactly when no move is legal for either side |
| Rules.NoValidMoves | src/lib/reversi-logic.ts:55-67 | a side's move list is empty exactly when no cell is legal for it |
| Rules.FullBoardIsOver | src/lib/reversi-logic.ts:93-97 | a board with no empty cell ends the game |
| Rules.CheckGameOver | src/lib/reversi-logic.ts:93-97 | true exactly when neither side has a valid move |
| Rules.GetWinner | src/lib/reversi-logic.ts:99-104 | a side wins exactly when it has strictly more discs; equal counts give a tie; there is always an outcome |
| Opening.InitialCounts | src/lib/reversi-logic.ts:18-26 | the starting position has 2 discs per side and 60 empty cells |
| Opening.OpeningLegal | src/lib/reversi-logic.ts:28-53 | on the starting position a Player1 move is legal iff it is (2,4), (3,5), (4,2) or (5,3), and each of those flips exactly one disc |
| Opening.OpeningFlipsOne | src/lib/reversi-logic.ts:28-53 | each opening move flips exactly the centre disc next to it |
| Opening.OpeningMoves | src/lib/reversi-logic.ts:55-67 | Player1's valid moves on the starting position are exactly [(2,4), (3,5), (4,2), (5,3)] |
| Evaluation.TableSymmetric | src/lib/reversi-logic.ts:133-142 | the piece-square table is unchanged by transposition, row mirroring and column mirroring |
| Evaluation.EvaluateBoard | src/lib/reversi-logic.ts:144-159 | the nested loop returns the weight of `player`'s discs less that of the opponent's |
| Evaluation.EvaluateAntisymmetric | src/lib/reversi-logic.ts:144-159 | the evaluation for one side is the negation of the evaluation for the other |
| Evaluation.AbsTotal | src/lib/reversi-logic.ts:133-142 | the absolute weights of the table add up to 1176 |
| Evaluation.EvaluateBounded | src/lib/reversi-logic.ts:144-159 | every evaluation lies in [-1176, 1176], so the stand-in for `Infinity` exceeds all of them |
| Search.MinimaxBounded | src/lib/reversi-logic.ts:161-193 | every minimax value lies in [-1176, 1176], like the evaluations it is built from |
| Search.ReversiMinimaxBounded | src/lib/reversi-logic.ts:161-193 | every minimax value of Reversi itself lies in [-1176, 1176], well inside the stand-in for `Infinity` |
| Search.BackupGrows | src/lib/reversi-logic.ts:173-179 | trying more moves never lowers the maximiser's best value |
| Search.BackupShrinks | src/lib/reversi-logic.ts:184-190 | trying more moves never raises the minimiser's best value |
| Search.AlphaBeta | src/lib/reversi-logic.ts:161-193 | for any window alpha < beta the result is a fail-soft bound on the unpruned minimax value (where a pass costs one ply, the maximiser plays `player` and the minimiser the opponent): above it when <= alpha, below it when >= beta, equal inside; with a window wider than all evaluations it equals minimax; recursion ends on `depth` |
| Search.AfterMove | src/lib/reversi-logic.ts:174-175 | `makeMove` followed by the recursive search gives the fail-soft value of the child position |
| Search.MaxStep | src/lib/reversi-logic.ts:176-178 | one pass of the maximiser's loop keeps its invariant, or gives the node's value when `beta <= alpha` cuts the loop |
| Search.MaxNode | src/lib/reversi-logic.ts:171-180 | the maximiser's loop, cut-off included, returns a fail-soft bound on the best child value |
| Search.MinStep | src/lib/reversi-logic.ts:187-189 | one pass of the minimiser's loop keeps its invariant, or gives the node's value when the loop is cut |
| Search.MinNode | src/lib/reversi-logic.ts:181-192 | the minimiser's loop, playing the opponent's moves, returns a fail-soft bound on the worst child value |
| Strategies.RandomIndex | src/lib/reversi-logic.ts:111 | the index picked from a draw in [0, 1) lies inside the list |
| Strategies.RandomMove | src/lib/reversi-logic.ts:109-112 | no move exactly when the list is empty; otherwise a member of the list |
| Strategies.RandomCovers | src/lib/reversi-logic.ts:109-112 | every listed move is picked by some draw in [0, 1) |
| Strategies.FirstBest | src/lib/reversi-logic.ts:121-126 | the index kept by a scan that replaces its choice only on a strictly larger value is maximal, and strictly larger than every earlier value |
| Strategies.FirstBestUnique | src/lib/reversi-logic.ts:121-126 | only one index is maximal and strictly above all earlier values |
| Strategies.GetGreedyMove | src/lib/reversi-logic.ts:115-129 | no move for an empty list; otherwise the first listed move with the most flips |
| Strategies.GreedyMaximizes | src/lib/reversi-logic.ts:115-129 | the greedy move flips at least as many discs as any listed move, and strictly more than every move listed before it |
| Strategies.GetStrategicMove | src/lib/reversi-logic.ts:196-211 | no move for an empty list; otherwise the first listed move of highest minimax value, searched 3 plies deep with the opponent to move |
| Strategies.GetAiMove | src/lib/reversi-logic.ts:214-228 | no move exactly when `player` has no valid move; otherwise a legal move: the greedy or the strategic choice for those names, and the random choice for "Random" and any other name |

## Left out

- The React UI, routing, timers and the turn/pass controller of the game screens are not part of this model. Neither is the opponent-name prompt sent to a language model.
- `Math.random` is not modelled. `getRandomMove` and `getAiMove` take the draw as a parameter `random` in [0, 1), and pick index `Floor(random * n)`. The source computes that product in JavaScript doubles; the model computes it in exact real arithmetic, so rounding of the product is not modelled.
- `Strategies.GetAiMove`: the strategy is a `string`. "Random" and every unrecognised name both take the random branch, as the `default` case does.
- `±Infinity` is modelled as the integer constant `Infinity` = 1 000 000, which is larger than any evaluation (at most 1176).
  - `Search.AlphaBeta`, `Search.MaxNode` and `Search.MinNode` therefore ask for a window inside [-Infinity, Infinity], which every call in the source meets.
  - JavaScript numbers are modelled as unbounded integers. Every value the search handles is an integer.
- `Search.AlphaBeta` states nothing about how much it prunes or how long it runs.
- Each of `alphaBeta`'s two loops is a method of its own, `Search.MaxNode` and `Search.MinNode`. `makeMove` followed by the recursive call is `Search.AfterMove`. The reads of `checkGameOver`, `getValidMoves` and `evaluateBoard` are small wrapper methods in front of the search.
- A board is one `array2<Cell>`, not an array of row arrays, so two rows never alias.
- `makeMove` copies the board. The model's `Rules.MakeMove` has no `modifies` clause, so the input board is never modified.
- `getWinner` returns a side or `Tie` for the source's `0`. The source's `null` never occurs, and the result type does not include it.

## Findings

No discrepancy between the source and its evident intent was found.
