/** Plane geometry the metaballs are built on: raylib's two-component vector,
    with `real` components in place of `f32`, and the square root the program
    takes from the float library. The model does not compute square roots: a
    member that needs one receives it as a parameter `sqrt: real -> real`,
    together with a predicate saying how much of the real square root it relies on. */
module Geometry {

  /** raylib's `Vector2`. */
  datatype Vec2 = Vec2(x: real, y: real)
  {
    /** Component-wise sum, `a + b` (and `a += b`). */
    function Plus(o: Vec2): Vec2 {
      Vec2(x + o.x, y + o.y)
    }

    /** Component-wise difference, `a - b`. */
    function Minus(o: Vec2): Vec2 {
      Vec2(x - o.x, y - o.y)
    }

    /** Scaling by a scalar, `v * k`. */
    function Times(k: real): Vec2 {
      Vec2(x * k, y * k)
    }

    /** `length_sqr`: the squared Euclidean length. */
    function LengthSqr(): real {
      x * x + y * y
    }
  }

  const Zero := Vec2(0.0, 0.0)

  /** `f32::abs`. */
  function Abs(v: real): (r: real)
    ensures 0.0 <= r
    ensures r == v || r == -v
    ensures v < 0.0 ==> r == -v
  {
    if v < 0.0 then -v else v
  }

  /** The squared length of the zero vector is zero. */
  lemma LengthSqrOfZero()
    ensures Zero.LengthSqr() == 0.0
  {
  }

  /** All the model needs of `sqrt` to divide by it: it is positive on positive inputs. */
  ghost predicate PositiveOnPositives(sqrt: real -> real) {
    forall r :: 0.0 < r ==> 0.0 < sqrt(r)
  }

  /** `sqrt` grows strictly with its argument on positive inputs. */
  ghost predicate StrictlyIncreasing(sqrt: real -> real) {
    forall a, b :: 0.0 < a < b ==> sqrt(a) < sqrt(b)
  }

  /** `sqrt` is the real square root on the non-negative reals. */
  ghost predicate IsSquareRoot(sqrt: real -> real) {
    forall r :: 0.0 <= r ==> 0.0 <= sqrt(r) && sqrt(r) * sqrt(r) == r
  }

  /** The real square root meets both weaker assumptions. */
  lemma SquareRootIsPositiveAndIncreasing(sqrt: real -> real)
    requires IsSquareRoot(sqrt)
    ensures PositiveOnPositives(sqrt)
    ensures StrictlyIncreasing(sqrt)
  {
    forall r | 0.0 < r ensures 0.0 < sqrt(r) {
      var q := sqrt(r);
      assert q * q == r;
      SquareOfZero(q);
    }
    forall a, b | 0.0 < a < b ensures sqrt(a) < sqrt(b) {
      var sa, sb := sqrt(a), sqrt(b);
      assert sa * sa == a && sb * sb == b;
      if sb <= sa {
        MulLe(sb, sa, sb);
        MulLe(sb, sa, sa);
        assert false;
      }
    }
  }

  /** Zero squares to zero; read backwards, a non-zero square has a non-zero root. */
  lemma SquareOfZero(q: real)
    ensures q == 0.0 ==> q * q == 0.0
  {
    if q == 0.0 {
      assert q * q == 0.0 * 0.0;
    }
  }

  /** Multiplying by a non-negative factor keeps an ordering. */
  lemma MulLe(a: real, b: real, k: real)
    requires a <= b && 0.0 <= k
    ensures a * k <= b * k
  {
    assert b * k - a * k == (b - a) * k;
  }
}
