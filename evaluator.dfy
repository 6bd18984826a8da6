/** The static evaluator: checkmate and draw detection, then material
    counting over the 64 squares. Scores are from White's point of view. */
module Evaluator {
  import opened ChessRules

  /** Magnitude of the checkmate score. */
  const MateScore: int := 20000

  /** The engine's fixed material values. */
  function PieceValue(kind: PieceType): (v: int)
    ensures 100 <= v <= MateScore
    ensures v == MateScore <==> kind == King
  {
    match kind
    case Pawn => 100
    case Knight => 320
    case Bishop => 330
    case Rook => 500
    case Queen => 900
    case King => 20000
  }

  /** What the contents of one square add to the score. */
  function SquareScore(p: Option<Piece>): int {
    match p
    case None => 0
    case Some(piece) =>
      if piece.color == White then PieceValue(piece.kind) else -PieceValue(piece.kind)
  }

  /** Material balance of a run of squares, accumulated in square order. */
  function MaterialSum(ps: seq<Option<Piece>>): int {
    if ps == [] then 0
    else MaterialSum(ps[..|ps| - 1]) + SquareScore(ps[|ps| - 1])
  }

  /** Total value of the pieces of colour c on a run of squares. */
  function SideMaterial(ps: seq<Option<Piece>>, c: Color): nat {
    if ps == [] then 0
    else
      var p := ps[0];
      (if p.Some? && p.value.color == c then PieceValue(p.value.kind) else 0)
      + SideMaterial(ps[1..], c)
  }

  /** The contents of the 64 squares of a position. */
  function Placement(r: Rules, h: History): (ps: seq<Option<Piece>>)
    ensures |ps| == 64
  {
    seq(64, sq requires 0 <= sq < 64 => r.pieceAt(h, sq))
  }

  function SwapColour(p: Option<Piece>): Option<Piece> {
    match p
    case None => None
    case Some(piece) => Some(Piece(piece.kind, Opponent(piece.color)))
  }

  /** The same squares with every piece given to the other side. */
  function SwapColours(ps: seq<Option<Piece>>): (qs: seq<Option<Piece>>)
    ensures |qs| == |ps|
  {
    seq(|ps|, i requires 0 <= i < |ps| => SwapColour(ps[i]))
  }

  /** The evaluation of a position: the checkmate sentinel against the side
      to move, zero for a stalemate or insufficient material, and otherwise
      the material balance of the 64 squares. */
  function BoardScore(r: Rules, h: History): int {
    if r.isCheckmate(h) then (if r.turn(h) == White then -MateScore else MateScore)
    else if r.isStalemate(h) || r.isInsufficientMaterial(h) then 0
    else MaterialSum(Placement(r, h))
  }

  /** Adding one more square at the front: how SideMaterial splits. */
  lemma {:induction false} SideMaterialLast(ps: seq<Option<Piece>>, c: Color)
    requires ps != []
    ensures SideMaterial(ps, c) == SideMaterial(ps[..|ps| - 1], c)
      + (if ps[|ps| - 1].Some? && ps[|ps| - 1].value.color == c then PieceValue(ps[|ps| - 1].value.kind) else 0)
  {
    if |ps| > 1 {
      assert ps[1..][..|ps[1..]| - 1] == ps[..|ps| - 1][1..];
      SideMaterialLast(ps[1..], c);
    }
  }

  /** The material balance is White's material minus Black's. */
  lemma {:induction false} MaterialIsWhiteMinusBlack(ps: seq<Option<Piece>>)
    ensures MaterialSum(ps) == SideMaterial(ps, White) - SideMaterial(ps, Black)
  {
    if ps != [] {
      MaterialIsWhiteMinusBlack(ps[..|ps| - 1]);
      SideMaterialLast(ps, White);
      SideMaterialLast(ps, Black);
    }
  }

  /** Giving every piece to the other side negates the material balance. */
  lemma {:induction false} SwapNegatesMaterial(ps: seq<Option<Piece>>)
    ensures MaterialSum(SwapColours(ps)) == -MaterialSum(ps)
  {
    if ps != [] {
      var n := |ps|;
      assert SwapColours(ps)[..n - 1] == SwapColours(ps[..n - 1]);
      SwapNegatesMaterial(ps[..n - 1]);
    }
  }

  /** The square on the same file, on the opposite rank (rank r to rank 7 - r). */
  function MirrorSquare(sq: Square): (m: Square)
    ensures m % 8 == sq % 8 && m / 8 == 7 - sq / 8
  {
    (7 - sq / 8) * 8 + sq % 8
  }

  /** The colour image of a board: the board flipped top to bottom and every
      piece given to the other side. */
  function ColourImage(ps: seq<Option<Piece>>): (qs: seq<Option<Piece>>)
    requires |ps| == 64
    ensures |qs| == 64
  {
    seq(64, sq requires 0 <= sq < 64 => SwapColour(ps[MirrorSquare(sq)]))
  }

  /** The ranks of a run of whole ranks, in the opposite order. */
  function RanksReversed(ps: seq<Option<Piece>>): (qs: seq<Option<Piece>>)
    requires |ps| % 8 == 0
    ensures |qs| == |ps|
    decreases |ps|
  {
    if ps == [] then [] else RanksReversed(ps[8..]) + ps[..8]
  }

  lemma {:induction false} MaterialSumAppend(a: seq<Option<Piece>>, b: seq<Option<Piece>>)
    ensures MaterialSum(a + b) == MaterialSum(a) + MaterialSum(b)
    decreases |b|
  {
    if b == [] {
      assert a + b == a;
    } else {
      assert (a + b)[..|a + b| - 1] == a + b[..|b| - 1];
      MaterialSumAppend(a, b[..|b| - 1]);
    }
  }

  /** Reordering the ranks does not change the material balance. */
  lemma {:induction false} RanksReversedKeepsMaterial(ps: seq<Option<Piece>>)
    requires |ps| % 8 == 0
    ensures MaterialSum(RanksReversed(ps)) == MaterialSum(ps)
    decreases |ps|
  {
    if ps != [] {
      RanksReversedKeepsMaterial(ps[8..]);
      MaterialSumAppend(RanksReversed(ps[8..]), ps[..8]);
      MaterialSumAppend(ps[..8], ps[8..]);
      assert ps[..8] + ps[8..] == ps;
    }
  }

  /** Square sq of the rank-reversed board holds what the square on the same
      file and the opposite rank held. */
  lemma {:induction false} RanksReversedAt(ps: seq<Option<Piece>>, sq: nat)
    requires |ps| % 8 == 0 && sq < |ps|
    ensures RanksReversed(ps)[sq] == ps[(|ps| / 8 - 1 - sq / 8) * 8 + sq % 8]
    decreases |ps|
  {
    var rest := ps[8..];
    if sq < |rest| {
      RanksReversedAt(rest, sq);
      assert (|rest| / 8 - 1 - sq / 8) * 8 + sq % 8 + 8 == (|ps| / 8 - 1 - sq / 8) * 8 + sq % 8;
    } else {
      assert RanksReversed(ps)[sq] == ps[..8][sq - |rest|];
      assert sq / 8 == |ps| / 8 - 1;
    }
  }

  /** The colour image of a board has the opposite material balance. */
  lemma ColourImageNegatesMaterial(ps: seq<Option<Piece>>)
    requires |ps| == 64
    ensures MaterialSum(ColourImage(ps)) == -MaterialSum(ps)
  {
    var flipped := RanksReversed(ps);
    forall sq | 0 <= sq < 64
      ensures ColourImage(ps)[sq] == SwapColours(flipped)[sq]
    {
      RanksReversedAt(ps, sq);
    }
    assert ColourImage(ps) == SwapColours(flipped);
    SwapNegatesMaterial(flipped);
    RanksReversedKeepsMaterial(ps);
  }

  /** Two positions that are colour images of each other (the board flipped
      top to bottom with every piece given to the other side, the other side
      to move, the same checkmate and draw status) evaluate to opposite
      scores. */
  lemma BoardScoreColourImage(r: Rules, h: History, h': History)
    requires forall sq: Square :: r.pieceAt(h', sq) == SwapColour(r.pieceAt(h, MirrorSquare(sq)))
    requires r.turn(h') == Opponent(r.turn(h))
    requires r.isCheckmate(h') == r.isCheckmate(h)
    requires (r.isStalemate(h') || r.isInsufficientMaterial(h'))
          == (r.isStalemate(h) || r.isInsufficientMaterial(h))
    ensures BoardScore(r, h') == -BoardScore(r, h)
  {
    assert Placement(r, h') == ColourImage(Placement(r, h));
    ColourImageNegatesMaterial(Placement(r, h));
  }
}
