/** Bodies, the simulation constants, the pair kernel and the integration
    rule of one step. */
module Bodies {
  import opened Vectors

  /** One simulated particle; its index in the body array is its identity. */
  datatype Body = Body(pos: Vec2, vel: Vec2, mass: real, radius: real)

  /** Minimum distance squared below which a pair does not interact. */
  const MIN2: real := 2.0
  /** Time step of one `update`. */
  const DT: real := 0.01

  /** The floating-point part of the pair kernel, left abstract.  For a
      pair (i, j), `near(b_i, b_j)` is the cutoff test; when it holds,
      `onI(b_i, b_j)` is added to acceleration entry i and `onJ(b_i, b_j)` is
      subtracted from entry j. */
  datatype Kernel = Kernel(near: (Body, Body) -> bool, onI: (Body, Body) -> Vec2, onJ: (Body, Body) -> Vec2)

  /** The code's cutoff test `d2 > min2`, with `d2` the squared distance of
      the two positions, computed exactly. */
  predicate Cutoff(a: Body, b: Body) {
    Length2(Sub(a.pos, b.pos)) > MIN2
  }

  /** The kernel uses the code's cutoff test. */
  ghost predicate SourceCutoff(kern: Kernel) {
    forall a, b :: kern.near(a, b) == Cutoff(a, b)
  }

  /** Under the code's cutoff, coincident bodies never interact (the guard
      against a zero displacement), and the test is symmetric in the pair. */
  lemma CutoffProperties(kern: Kernel, a: Body, b: Body)
    requires SourceCutoff(kern)
    ensures a.pos == b.pos ==> !kern.near(a, b)
    ensures kern.near(a, b) == kern.near(b, a)
  {
    var d, e := Sub(a.pos, b.pos), Sub(b.pos, a.pos);
    assert e.x * e.x == d.x * d.x && e.y * e.y == d.y * d.y;
    assert kern.near(a, b) == Cutoff(a, b) && kern.near(b, a) == Cutoff(b, a);
  }

  /** One body's integration: position first, with the velocity held before
      the step, then velocity with the reduced acceleration. */
  function Advance(b: Body, acc: Vec2, dt: real): Body {
    var moved := b.(pos := Add(b.pos, Scale(b.vel, dt)));
    moved.(vel := Add(moved.vel, Scale(acc, dt)))
  }

  /** The inverse of `Advance`: undo the velocity change first, then move
      back with the recovered old velocity. */
  function Rewind(b: Body, acc: Vec2, dt: real): Body {
    var slowed := b.(vel := Sub(b.vel, Scale(acc, dt)));
    slowed.(pos := Sub(slowed.pos, Scale(slowed.vel, dt)))
  }

  /** Advancing uses the pre-update velocity for the position, changes the
      velocity by exactly `acc * dt`, and leaves mass and radius alone. */
  lemma AdvanceEffect(b: Body, acc: Vec2, dt: real)
    ensures Sub(Advance(b, acc, dt).pos, b.pos) == Scale(b.vel, dt)
    ensures Sub(Advance(b, acc, dt).vel, b.vel) == Scale(acc, dt)
    ensures Advance(b, acc, dt).mass == b.mass && Advance(b, acc, dt).radius == b.radius
  {
  }

  /** `Rewind` undoes `Advance` and `Advance` undoes `Rewind`. */
  lemma AdvanceRewind(b: Body, acc: Vec2, dt: real)
    ensures Rewind(Advance(b, acc, dt), acc, dt) == b
    ensures Advance(Rewind(b, acc, dt), acc, dt) == b
  {
  }

  /** Integrating the whole body array, each body with its own acceleration
      entry. */
  function Integrated(bodies: seq<Body>, accs: seq<Vec2>, dt: real): seq<Body>
    requires |accs| == |bodies|
  {
    seq(|bodies|, i requires 0 <= i < |bodies| => Advance(bodies[i], accs[i], dt))
  }

  /** Body i's new state depends only on body i and acceleration entry i:
      two integrations that agree there agree on entry i, whatever the other
      bodies and entries are. */
  lemma IntegratedLocal(bodies: seq<Body>, accs: seq<Vec2>, others: seq<Body>, otherAccs: seq<Vec2>, dt: real, i: nat)
    requires |accs| == |bodies| && |otherAccs| == |others| && i < |bodies| && i < |others|
    requires bodies[i] == others[i] && accs[i] == otherAccs[i]
    ensures |Integrated(bodies, accs, dt)| == |bodies|
    ensures Integrated(bodies, accs, dt)[i] == Integrated(others, otherAccs, dt)[i]
  {
  }
}
