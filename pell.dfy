/**
 The Pell vector (x, y) and the fixed multiplier matrix M = [[9, 20], [4, 9]]
 that the solver applies to it once per iteration. M has determinant 1 and
 is the matrix of multiplication by 9 + 4 * sqrt(5), a unit of norm 1, so it
 keeps the Pell form x^2 - 5 y^2 unchanged.
 */
module Pell {

  datatype Vec = Vec(x: int, y: int)

  /** The Pell form x^2 - 5 y^2 of a vector. */
  function Norm(v: Vec): int
  {
    v.x * v.x - 5 * v.y * v.y
  }

  /** One application of M, written as the two multiply-adds of M @ v. */
  function Step(v: Vec): (r: Vec)
    ensures Norm(r) == Norm(v)
  {
    Vec(9 * v.x + 20 * v.y, 4 * v.x + 9 * v.y)
  }

  /** M applied m times to v. */
  function Iterate(v: Vec, m: nat): (r: Vec)
    ensures Norm(r) == Norm(v)
  {
    if m == 0 then v else Step(Iterate(v, m - 1))
  }
}
