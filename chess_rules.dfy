/** The rules engine the search relies on, seen from outside: legal moves,
    game-termination tests, side to move and piece placement, each a function
    of the moves played from the board's starting position. */
module ChessRules {

  datatype Option<T> = None | Some(value: T)

  datatype Color = White | Black

  function Opponent(c: Color): Color {
    if c == White then Black else White
  }

  datatype PieceType = Pawn | Knight | Bishop | Rook | Queen | King

  datatype Piece = Piece(kind: PieceType, color: Color)

  /** Squares 0..63, a1 = 0, file varying fastest. */
  type Square = s: nat | s < 64

  datatype Move = Move(from: Square, to: Square, promotion: Option<PieceType>)

  /** A position, identified by the moves pushed since the starting position. */
  type History = seq<Move>

  /** The capabilities of the rules engine, each a function of the position. */
  datatype Rules = Rules(
    legalMoves: History -> seq<Move>,
    isGameOver: History -> bool,
    isCheckmate: History -> bool,
    isStalemate: History -> bool,
    isInsufficientMaterial: History -> bool,
    turn: History -> Color,
    pieceAt: (History, Square) -> Option<Piece>)

  /** The one fact about the rules engine that the search needs:
      a position whose game is not over has a legal move. */
  ghost predicate WellFormed(r: Rules) {
    forall h: History :: !r.isGameOver(h) ==> r.legalMoves(h) != []
  }

  /** A board: fixed rules and starting position, and the stack of moves
      pushed on it. Push and pop are the only ways to change it. */
  class Board {
    const rules: Rules
    var stack: History

    constructor (rules: Rules, stack: History)
      ensures this.rules == rules && this.stack == stack
    {
      this.rules := rules;
      this.stack := stack;
    }

    function LegalMoves(): seq<Move>
      reads this
    {
      rules.legalMoves(stack)
    }

    predicate IsGameOver()
      reads this
    {
      rules.isGameOver(stack)
    }

    predicate IsCheckmate()
      reads this
    {
      rules.isCheckmate(stack)
    }

    predicate IsStalemate()
      reads this
    {
      rules.isStalemate(stack)
    }

    predicate IsInsufficientMaterial()
      reads this
    {
      rules.isInsufficientMaterial(stack)
    }

    function Turn(): Color
      reads this
    {
      rules.turn(stack)
    }

    function PieceAt(sq: Square): Option<Piece>
      reads this
    {
      rules.pieceAt(stack, sq)
    }

    /** Plays a move: it becomes the top of the move stack. */
    method Push(m: Move)
      modifies this
      ensures stack == old(stack) + [m]
    {
      stack := stack + [m];
    }

    /** Takes back the last move pushed and returns it. */
    method Pop() returns (m: Move)
      requires stack != []
      modifies this
      ensures stack == old(stack)[..|old(stack)| - 1]
      ensures m == old(stack)[|old(stack)| - 1]
    {
      m := stack[|stack| - 1];
      stack := stack[..|stack| - 1];
    }
  }
}
