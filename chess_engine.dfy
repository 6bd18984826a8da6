/** The engine: the static evaluation of a board, the alpha-beta minimax
    search that pushes and pops moves on one shared board, and the root call
    that picks a move. */
module ChessEngine {
  import opened Scores
  import opened ChessRules
  import opened Evaluator
  import opened SearchSpec

  /** Scores the board from White's side: the checkmate sentinel against the
      side to move, zero for a drawn position (checked before any material
      is counted), otherwise White's material minus Black's. */
  method EvaluateBoard(board: Board) returns (score: int)
    ensures score == BoardScore(board.rules, board.stack)
    ensures board.IsCheckmate() ==> score == (if board.Turn() == White then -MateScore else MateScore)
    ensures !board.IsCheckmate() && (board.IsStalemate() || board.IsInsufficientMaterial()) ==> score == 0
    ensures !board.IsCheckmate() && !board.IsStalemate() && !board.IsInsufficientMaterial() ==>
      score == SideMaterial(Placement(board.rules, board.stack), White)
             - SideMaterial(Placement(board.rules, board.stack), Black)
  {
    if board.IsCheckmate() {
      return if board.Turn() == White then -MateScore else MateScore;
    }
    if board.IsStalemate() || board.IsInsufficientMaterial() {
      return 0;
    }
    ghost var squares := Placement(board.rules, board.stack);
    score := 0;
    var sq := 0;
    while sq < 64
      invariant 0 <= sq <= 64
      invariant score == MaterialSum(squares[..sq])
    {
      var piece := board.PieceAt(sq);
      assert squares[..sq + 1][..sq] == squares[..sq] && squares[sq] == piece;
      if piece.Some? {
        var value := PieceValue(piece.value.kind);
        if piece.value.color == White {
          score := score + value;
        } else {
          score := score - value;
        }
      }
      sq := sq + 1;
    }
    assert squares[..64] == squares;
    MaterialIsWhiteMinusBlack(squares);
  }

  /** Depth-bounded minimax with alpha-beta pruning. Each move is pushed,
      searched one ply shallower with the other perspective, and popped
      again before the loop goes on or stops, so the board's move stack is
      the same on return as on entry. */
  method Minimax(board: Board, depth: nat, alpha: Score, beta: Score, maximizing: bool)
      returns (score: Score, bestMove: Option<Move>)
    modifies board
    ensures board.stack == old(board.stack)
    ensures (score, bestMove) == AlphaBeta(board.rules, old(board.stack), depth, alpha, beta, maximizing)
    ensures bestMove.Some? ==> bestMove.value in board.rules.legalMoves(old(board.stack))
    ensures depth == 0 || board.rules.isGameOver(old(board.stack)) ==>
      score == Fin(BoardScore(board.rules, old(board.stack))) && bestMove == None
    decreases depth
  {
    if depth == 0 || board.IsGameOver() {
      var e := EvaluateBoard(board);
      return Fin(e), None;
    }
    ghost var h := board.stack;
    var moves := board.LegalMoves();
    bestMove := None;
    var a, b := alpha, beta;
    if maximizing {
      var maxEval := NegInf;
      var i := 0;
      while i < |moves|
        invariant 0 <= i <= |moves|
        invariant board.stack == h
        invariant MaxLoop(board.rules, h, moves[i..], depth - 1, a, b, maxEval, bestMove)
               == AlphaBeta(board.rules, h, depth, alpha, beta, true)
        invariant bestMove.Some? ==> bestMove.value in moves
      {
        ghost var rest := moves[i..];
        assert rest[0] == moves[i] && rest[1..] == moves[i + 1..];
        board.Push(moves[i]);
        var eval, _ := Minimax(board, depth - 1, a, b, false);
        var undone := board.Pop();
        if Lt(maxEval, eval) {
          maxEval := eval;
          bestMove := Some(moves[i]);
        }
        a := Max(a, eval);
        if Le(b, a) {
          break;
        }
        i := i + 1;
      }
      return maxEval, bestMove;
    } else {
      var minEval := PosInf;
      var i := 0;
      while i < |moves|
        invariant 0 <= i <= |moves|
        invariant board.stack == h
        invariant MinLoop(board.rules, h, moves[i..], depth - 1, a, b, minEval, bestMove)
               == AlphaBeta(board.rules, h, depth, alpha, beta, false)
        invariant bestMove.Some? ==> bestMove.value in moves
      {
        ghost var rest := moves[i..];
        assert rest[0] == moves[i] && rest[1..] == moves[i + 1..];
        board.Push(moves[i]);
        var eval, _ := Minimax(board, depth - 1, a, b, true);
        var undone := board.Pop();
        if Lt(eval, minEval) {
          minEval := eval;
          bestMove := Some(moves[i]);
        }
        b := Min(b, eval);
        if Le(b, a) {
          break;
        }
        i := i + 1;
      }
      return minEval, bestMove;
    }
  }

  /** The engine's move for the side to move: a full-window search whose
      root perspective is maximising exactly when White is to move. The
      board is left as it was; the move, when there is one, is legal; and
      on well-formed rules it is the plain minimax choice (first best move),
      and there is one whenever depth >= 1 and the game is not over. */
  method GetBestMove(board: Board, depth: nat := 3) returns (move: Option<Move>)
    modifies board
    ensures board.stack == old(board.stack)
    ensures move == AlphaBeta(board.rules, old(board.stack), depth, NegInf, PosInf,
                              board.rules.turn(old(board.stack)) == White).1
    ensures move.Some? ==> move.value in board.rules.legalMoves(old(board.stack))
    ensures WellFormed(board.rules) ==>
      move == PlainMinimax(board.rules, old(board.stack), depth, board.rules.turn(old(board.stack)) == White).1
    ensures WellFormed(board.rules) && depth > 0 && !board.rules.isGameOver(old(board.stack)) ==> move.Some?
  {
    ghost var h := board.stack;
    var root := board.Turn() == White;
    var _, best := Minimax(board, depth, NegInf, PosInf, root);
    move := best;
    if WellFormed(board.rules) {
      FullWindowIsMinimax(board.rules, h, depth, root);
      AlphaBetaFinite(board.rules, h, depth, NegInf, PosInf, root);
    }
  }
}
