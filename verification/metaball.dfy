/** A metaball: a moving source of inverse-distance influence that bounces
    inside the window by flipping the sign of its velocity (src/main.rs:29-85). */
module Metaballs {
  import opened Geometry

  /** The reflective rule `update` applies to one axis, once the coordinate has
      been advanced to `p`: moving outwards past the upper limit turns the
      velocity inwards, moving outwards below zero turns it inwards, and
      anything else leaves it alone. Only the sign ever changes. */
  function Reflect(p: real, v: real, limit: real): (w: real)
    ensures Abs(w) == Abs(v)
    ensures w == v || w == -v
    ensures w == v <==> !(limit <= p && 0.0 < v) && !(p < 0.0 && v < 0.0)
    ensures 0.0 <= limit <= p ==> w <= 0.0
    ensures p < 0.0 && p < limit ==> 0.0 <= w
  {
    if limit <= p && 0.0 < v then -1.0 * Abs(v)
    else if p < 0.0 && v < 0.0 then Abs(v)
    else v
  }

  /** Re-applying the rule at the same coordinate changes nothing: a velocity
      that was turned inwards is never turned back. */
  lemma ReflectIdempotent(p: real, v: real, limit: real)
    requires 0.0 <= limit
    ensures Reflect(p, Reflect(p, v, limit), limit) == Reflect(p, v, limit)
  {
  }

  class Metaball {
    var position: Vec2
    var size: real
    var vel: Vec2
    var limit: Vec2

    /** A ball from values already drawn: `Metaball::new` and `Metaball::new_pos`
        draw `size`, `vel` and (for `new`) `position` at random. */
    constructor (position: Vec2, size: real, vel: Vec2, limit: Vec2)
      ensures this.position == position && this.size == size
      ensures this.vel == vel && this.limit == limit
    {
      this.position := position;
      this.size := size;
      this.vel := vel;
      this.limit := limit;
    }

    /** `dist`: the ball's influence at `(px, py)`, `size / sqrt(d2)` where `d2`
        is the squared distance to the centre, and 0 at the centre itself. */
    function Dist(px: real, py: real, sqrt: real -> real): (r: real)
      reads this
      requires PositiveOnPositives(sqrt)
      ensures position == Vec2(px, py) ==> r == 0.0
      ensures r == 0.0 <==> position.Minus(Vec2(px, py)).LengthSqr() == 0.0 || size == 0.0
      ensures 0.0 < r <==> position.Minus(Vec2(px, py)).LengthSqr() != 0.0 && 0.0 < size
      ensures 0.0 <= size ==> 0.0 <= r
    {
      var d := position.Minus(Vec2(px, py));
      var s := d.LengthSqr();
      SameCentre(position, Vec2(px, py));
      if s == 0.0 then 0.0 else QuotientSign(size, sqrt(s)); 1.0 * size / sqrt(s)
    }

    /** `update`: move by `vel * elapsed`, then reflect each axis at the new position. */
    method Update(elapsed: real)
      modifies this
      ensures position == old(position).Plus(old(vel).Times(elapsed))
      ensures vel == Vec2(Reflect(position.x, old(vel).x, limit.x), Reflect(position.y, old(vel).y, limit.y))
      ensures size == old(size) && limit == old(limit)
    {
      position := position.Plus(vel.Times(elapsed));

      if position.x >= limit.x && vel.x > 0.0 {
        vel := vel.(x := -1.0 * Abs(vel.x));
      } else if position.x < 0.0 && vel.x < 0.0 {
        vel := vel.(x := Abs(vel.x));
      }

      if position.y >= limit.y && vel.y > 0.0 {
        vel := vel.(y := -1.0 * Abs(vel.y));
      } else if position.y < 0.0 && vel.y < 0.0 {
        vel := vel.(y := Abs(vel.y));
      }
    }
  }

  /** A point's squared distance to itself is zero. */
  lemma SameCentre(a: Vec2, b: Vec2)
    ensures a == b ==> a.Minus(b).LengthSqr() == 0.0
  {
    if a == b {
      assert a.Minus(b) == Zero;
      LengthSqrOfZero();
    }
  }

  /** A quotient by a positive number has the sign of its numerator. */
  lemma QuotientSign(a: real, q: real)
    requires 0.0 < q
    ensures 0.0 < 1.0 * a / q <==> 0.0 < a
    ensures 1.0 * a / q == 0.0 <==> a == 0.0
  {
    var r := 1.0 * a / q;
    assert r * q == a;
    if 0.0 < a { assert 0.0 < r; }
    if a < 0.0 { assert r < 0.0; }
  }

  /** `dist` is symmetric under reflection of the query point about the centre. */
  lemma DistPointSymmetric(b: Metaball, dx: real, dy: real, sqrt: real -> real)
    requires PositiveOnPositives(sqrt)
    ensures b.Dist(b.position.x + dx, b.position.y + dy, sqrt)
         == b.Dist(b.position.x - dx, b.position.y - dy, sqrt)
  {
    var p := b.position;
    assert p.Minus(Vec2(p.x + dx, p.y + dy)).LengthSqr() == dx * dx + dy * dy;
    assert p.Minus(Vec2(p.x - dx, p.y - dy)).LengthSqr() == dx * dx + dy * dy;
  }

  /** With an increasing `sqrt`, the influence of a ball of positive size falls
      strictly as the (non-zero) distance grows. */
  lemma DistDecreasing(b: Metaball, p1: Vec2, p2: Vec2, sqrt: real -> real)
    requires PositiveOnPositives(sqrt) && StrictlyIncreasing(sqrt)
    requires 0.0 < b.size
    requires 0.0 < b.position.Minus(p1).LengthSqr() < b.position.Minus(p2).LengthSqr()
    ensures b.Dist(p2.x, p2.y, sqrt) < b.Dist(p1.x, p1.y, sqrt)
  {
    var s1, s2 := b.position.Minus(p1).LengthSqr(), b.position.Minus(p2).LengthSqr();
    var q1, q2 := sqrt(s1), sqrt(s2);
    assert 0.0 < q1 < q2;
    QuotientDecreasing(b.size, q1, q2);
  }

  lemma QuotientDecreasing(a: real, q1: real, q2: real)
    requires 0.0 < a && 0.0 < q1 < q2
    ensures 1.0 * a / q2 < 1.0 * a / q1
  {
    var r1, r2 := 1.0 * a / q1, 1.0 * a / q2;
    assert r1 * q1 == a && r2 * q2 == a;
    assert 0.0 < r2 by { QuotientSign(a, q2); }
    MulLe(q1, q2, r2);
    if r1 <= r2 {
      MulLe(r1, r2, q1);
      assert false;
    }
  }
}
