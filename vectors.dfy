/** Two-dimensional vectors over exact reals: the `vec2` type the simulation
    uses for positions, velocities and accelerations.  Exact arithmetic makes
    addition an associative and commutative group operation, so summation
    order does not matter in this model. */
module Vectors {

  datatype Vec2 = Vec2(x: real, y: real)

  const ZERO: Vec2 := Vec2(0.0, 0.0)

  /** Componentwise sum.  Adding the zero vector returns `a` itself, which is
      the same value; spelling that case out keeps sums of zero vectors from
      generating fresh arithmetic in proofs. */
  function Add(a: Vec2, b: Vec2): Vec2 {
    if b == ZERO then a else Vec2(a.x + b.x, a.y + b.y)
  }

  function Sub(a: Vec2, b: Vec2): Vec2 {
    Vec2(a.x - b.x, a.y - b.y)
  }

  lemma AddAssoc(a: Vec2, b: Vec2, c: Vec2)
    ensures Add(Add(a, b), c) == Add(a, Add(b, c))
  {
  }

  lemma AddZero(a: Vec2)
    ensures Add(a, ZERO) == a && Add(ZERO, a) == a
  {
  }

  /** Regrouping a sum of two differences. */
  lemma AddSubs(a: Vec2, b: Vec2, c: Vec2, d: Vec2)
    ensures Add(Sub(a, b), Sub(c, d)) == Sub(Add(a, c), Add(b, d))
  {
  }

  /** Scaling by a real, `v * s` in nbody.cpp. */
  function Scale(v: Vec2, s: real): Vec2 {
    Vec2(v.x * s, v.y * s)
  }

  /** Squared length, the `length2` that nbody.cpp calls. */
  function Length2(v: Vec2): real {
    v.x * v.x + v.y * v.y
  }

  /** A sequence of `n` zero vectors: a freshly cleared accumulator. */
  function Zeros(n: nat): seq<Vec2> {
    seq(n, _ => ZERO)
  }
}
