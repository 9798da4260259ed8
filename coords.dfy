/**
 * The numbers stored in a bounding box. A JavaScript number that is never NaN
 * is a real or one of the two infinities; the empty bounds starts at the
 * infinities, so they belong to the model. Math.min and Math.max on such
 * numbers are the minimum and maximum of this total order.
 */
module Coords {

  datatype Coord = NegInf | Fin(v: real) | PosInf

  /** `a <= b` on numbers that are not NaN. */
  predicate Le(a: Coord, b: Coord) {
    a.NegInf? || b.PosInf? || (a.Fin? && b.Fin? && a.v <= b.v)
  }

  /** `a < b` on numbers that are not NaN. */
  predicate Lt(a: Coord, b: Coord) {
    !Le(b, a)
  }

  /** Math.min(a, b). */
  function Min(a: Coord, b: Coord): Coord {
    if Le(a, b) then a else b
  }

  /** Math.max(a, b). */
  function Max(a: Coord, b: Coord): Coord {
    if Le(a, b) then b else a
  }

  lemma LeReflexive(a: Coord)
    ensures Le(a, a)
  {
  }

  lemma LeTransitive(a: Coord, b: Coord, c: Coord)
    requires Le(a, b) && Le(b, c)
    ensures Le(a, c)
  {
  }

  lemma LeAntisymmetric(a: Coord, b: Coord)
    requires Le(a, b) && Le(b, a)
    ensures a == b
  {
  }
}
