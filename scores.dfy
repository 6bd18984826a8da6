/** Search scores: integers on the material scale (White positive), extended
    with the two infinities that open the alpha-beta window. */
module Scores {

  datatype Score = NegInf | Fin(value: int) | PosInf

  /** Strict order: NegInf below every finite score, PosInf above every one. */
  predicate Lt(a: Score, b: Score) {
    match a
    case NegInf => !b.NegInf?
    case Fin(x) => b.PosInf? || (b.Fin? && x < b.value)
    case PosInf => false
  }

  predicate Le(a: Score, b: Score) {
    !Lt(b, a)
  }

  /** The larger of two scores; on a tie the first one is kept. */
  function Max(a: Score, b: Score): (m: Score)
    ensures Le(a, m) && Le(b, m)
    ensures m == a || m == b
  {
    if Lt(a, b) then b else a
  }

  /** The smaller of two scores; on a tie the first one is kept. */
  function Min(a: Score, b: Score): (m: Score)
    ensures Le(m, a) && Le(m, b)
    ensures m == a || m == b
  {
    if Lt(b, a) then b else a
  }
}
