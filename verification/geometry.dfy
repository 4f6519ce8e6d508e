/** Tile coordinates, direction vectors and the integer distances the engine compares. */
module Geometry {

  /** A tile of the grid: column `x`, row `y` (row 0 is the top line of the maze text). */
  datatype Pos = Pos(x: int, y: int)

  /** A direction `{x, y}`. The engine only ever stores the four unit axis vectors and (0,0). */
  datatype Vec = Vec(dx: int, dy: int)

  const Zero := Vec(0, 0)
  const Right := Vec(1, 0)
  const Left := Vec(-1, 0)
  const Down := Vec(0, 1)
  const Up := Vec(0, -1)

  /** One of the four unit axis directions. */
  predicate IsAxis(v: Vec) {
    v == Right || v == Left || v == Down || v == Up
  }

  /** A direction an agent may hold: stopped, or one step along one axis. */
  predicate IsDir(v: Vec) {
    v == Zero || IsAxis(v)
  }

  /** The tile reached from `p` by one step along `v`. */
  function Step(p: Pos, v: Vec): Pos {
    Pos(p.x + v.dx, p.y + v.dy)
  }

  /** The exact reverse of a direction. */
  function Neg(v: Vec): Vec {
    Vec(-v.dx, -v.dy)
  }

  function Abs(n: int): nat {
    if n < 0 then -n else n
  }

  /** Taxicab distance, as used by the Clyde retreat test and by the collision test. */
  function Manhattan(a: Pos, b: Pos): nat {
    Abs(a.x - b.x) + Abs(a.y - b.y)
  }

  /** Squared Euclidean distance. It orders candidates exactly as `Math.hypot` does. */
  function SqDist(a: Pos, b: Pos): nat {
    Abs(a.x - b.x) * Abs(a.x - b.x) + Abs(a.y - b.y) * Abs(a.y - b.y)
  }

  /** `Math.round(n / 2)` for an integer `n`: the nearest integer to n/2, halves rounded towards +infinity. */
  function RoundHalf(n: int): (r: int)
    ensures n <= 2 * r <= n + 1
  {
    (n + 1) / 2
  }

  /** A step along a direction moves at most one tile, and exactly one unless the direction is (0,0). */
  lemma StepIsAdjacent(p: Pos, v: Vec)
    requires IsDir(v)
    ensures Manhattan(p, Step(p, v)) == if v == Zero then 0 else 1
  {
    if v != Zero {
      assert IsAxis(v);
    }
  }
}
