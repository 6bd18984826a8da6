# chess-with-me engine v1: evaluation and alpha-beta search in Dafny

This project models the move-search engine of `engine_v1/ChessEngine.py`:

- the **material evaluator** (`evaluate_board`): a checkmate scores the sentinel
  -20000 when White is to move and +20000 when Black is to move; a stalemate or
  insufficient material scores 0 before any material is counted; any other
  position scores White's material minus Black's over the 64 squares, using the
  fixed `piece_values` (pawn 100, knight 320, bishop 330, rook 500, queen 900,
  king 20000);
- the **depth-bounded minimax with alpha-beta pruning** (`minimax`,
  `get_best_move`): it stops at depth 0 or when the game is over, alternates
  maximising and minimising by ply from a root perspective fixed as "White to
  move", keeps the first best move (strict improvement only), prunes when
  `beta <= alpha`, and explores children by pushing and popping moves on one
  shared board.

Structure:

- `scores.dfy` (`Scores`): scores as integers extended with -inf and +inf,
  replacing Python's `float('inf')`; `Max` and `Min` keep the first argument on
  a tie, like Python's `max` and `min`.
- `chess_rules.dfy` (`ChessRules`): the python-chess rules engine as a `Rules`
  value of functions of the position (legal moves, game over, checkmate,
  stalemate, insufficient material, side to move, piece at a square). A
  position is the sequence of moves pushed since the board's starting position.
  `Board` is a class holding that move stack, with paired `Push` and `Pop`.
  `WellFormed(rules)` is the one assumption the search needs about the rules
  engine: a game that is not over has a legal move.
- `evaluator.dfy` (`Evaluator`): piece values, the material balance as a
  function of the 64 squares, and the evaluation `BoardScore`, with the
  lemmas that a colour image (board flipped top to bottom, colours swapped)
  has the opposite score.
- `search_spec.dfy` (`SearchSpec`): `AlphaBeta`, the pruned search exactly as
  the engine runs it, and `PlainMinimax`, the same depth-bounded tree searched
  without pruning (first best move kept), with the soundness proof of pruning.
- `chess_engine.dfy` (`ChessEngine`): the engine itself, imperative like the
  source. `EvaluateBoard` loops over the 64 squares. `Minimax` pushes each
  legal move, recurses one ply shallower, pops, and updates the running best
  and alpha or beta, breaking on `beta <= alpha`. `GetBestMove` makes the
  full-window root call.

Main results: the board's move stack is the same on return from `Minimax` and
`GetBestMove`; every returned move is legal; the search terminates because the
depth decreases on every recursive call; alpha-beta is sound in the fail-soft
sense for every window alpha < beta, the only kind the engine ever passes
(`AlphaBetaBounds`); with the full window used at the root, the pruned search returns exactly the plain minimax score and move
(`FullWindowIsMinimax`), and that move is the first one reaching the optimum
(`PlainMinimaxChoosesFirstBest`).

Engine v1 counts material only; it has no piece-square tables.

## Model

| member | source | states |
|---|---|---|
| Scores.Max | engine_v1/ChessEngine.py:73 | the new alpha is an upper bound of the old alpha and the child score and equals one of them |
| Scores.Min | engine_v1/ChessEngine.py:90 | the new beta is a lower bound of the old beta and the child score and equals one of them |
| ChessRules.Board.Push | engine_v1/ChessEngine.py:65 | pushing a move puts it on top of the board's move stack |
| ChessRules.Board.Pop | engine_v1/ChessEngine.py:67 | popping removes exactly the last pushed move and returns it |
| Evaluator.PieceValue | engine_v1/ChessEngine.py:13-20 | every piece is worth between a pawn's 100 and 20000, and only the king is worth the checkmate magnitude 20000 |
| Evaluator.MaterialIsWhiteMinusBlack | engine_v1/ChessEngine.py:33-49 | the score accumulated square by square equals the total value of White's pieces minus the total value of Black's |
| Evaluator.SwapNegatesMaterial | engine_v1/ChessEngine.py:36-47 | giving every piece on the same squares to the other side negates the material balance |
| Evaluator.ColourImageNegatesMaterial | engine_v1/ChessEngine.py:36-47 | flipping the board top to bottom (rank r to rank 7 - r) and giving every piece to the other side negates the material balance |
| Evaluator.BoardScoreColourImage | engine_v1/ChessEngine.py:22-49 | two positions that are colour images of each other (board flipped top to bottom, colours swapped, other side to move, same checkmate and draw status) evaluate to opposite scores |
| ChessEngine.EvaluateBoard | engine_v1/ChessEngine.py:22-49 | checkmate gives -20000 with White to move and +20000 with Black to move whatever the material; a non-checkmate stalemate or insufficient-material position gives 0; otherwise White's material minus Black's; the board is only read |
| SearchSpec.BestOfIsFirstOptimum | engine_v1/ChessEngine.py:69-71 | the unpruned selection loop returns a score no move beats, and its move is the first in enumeration order to reach that score, every earlier move being strictly worse |
| SearchSpec.AlphaBetaBounds | engine_v1/ChessEngine.py:57-94 | for any window alpha < beta, a pruned score at or below alpha bounds the minimax value from above, one at or above beta bounds it from below, and one strictly inside is the minimax value, with the same move |
| SearchSpec.MaxLoopBounds | engine_v1/ChessEngine.py:62-77 | the maximising loop, with its running alpha and break on beta <= alpha, keeps the fail-soft bounds against the unpruned loop over the same moves |
| SearchSpec.MinLoopBounds | engine_v1/ChessEngine.py:79-94 | the minimising loop, with its running beta and break on beta <= alpha, keeps the fail-soft bounds against the unpruned loop over the same moves |
| SearchSpec.AlphaBetaFinite | engine_v1/ChessEngine.py:57-94 | when unfinished games always have a legal move, every search score is finite, and at depth >= 1 on an unfinished game the move is never None |
| SearchSpec.MaxLoopFinite | engine_v1/ChessEngine.py:63-77 | the first finite child score beats -inf, so the maximising loop ends with a finite score and a move |
| SearchSpec.MinLoopFinite | engine_v1/ChessEngine.py:80-94 | the first finite child score beats +inf, so the minimising loop ends with a finite score and a move |
| SearchSpec.FullWindowIsMinimax | engine_v1/ChessEngine.py:100-101 | with the full window (-inf, +inf) the pruned search returns exactly the plain minimax score and move |
| SearchSpec.PlainMinimaxChoosesFirstBest | engine_v1/ChessEngine.py:60-94 | at depth >= 1 on an unfinished game, plain minimax picks a legal move whose value is the position's value, no move is better, and every earlier move is strictly worse |
| ChessEngine.Minimax | engine_v1/ChessEngine.py:51-94 | the move stack is restored on return; the result is the pruned search of the entry position; any move returned is legal; at depth 0 or game over it returns the evaluation and no move without recursing |
| ChessEngine.GetBestMove | engine_v1/ChessEngine.py:96-102 | the depth defaults to 3; the root perspective is maximising exactly when White is to move; the board is restored; the move is legal; on well-formed rules it is the plain minimax choice and exists when depth >= 1 and the game is not over |

## Left out

- The internals of python-chess (move generation, push and pop, checkmate,
  stalemate, insufficient-material and game-over detection): a foreign library,
  modelled only as the functions of `ChessRules.Rules`. The only assumption
  about them is `WellFormed` (an unfinished game has a legal move), used by the
  lemmas and ensures clauses that speak of finiteness and of the move existing.
- `play_game` (engine_v1/ChessEngine.py:105-126): an interactive console loop
  that reads moves with `input` and prints the board.
- engine_match.py, backend/main.py and the client (`ChessBoard.tsx`,
  `App.jsx`): a timing harness, an HTTP wrapper and a user interface around
  `get_best_move`. The `engine_v2` module and the `engine.ChessEngine` module
  they import are not part of this model.
- Python floats: scores are integers plus two infinities. Every finite score
  the engine produces is an integer.
- Negative depths: `depth` is a natural number. In Python a negative depth
  would not stop at the depth test.
- `board.legal_moves` is generated lazily while the loop pushes and pops. The
  model reads the list once per node. The board is restored before each next
  step, so the rules engine yields the same list either way.
- ChessRules.Board.Pop requires a non-empty stack; python-chess raises an
  error on an empty one, and the search only pops after a push.
- Not proved: that a mate in one is found with score +20000. That needs facts
  about real positions (both kings on the board, non-king material below
  20000) which the abstract rules engine does not supply.
