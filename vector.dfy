/**
 * Two-dimensional vectors over exact reals: the part of pygame.Vector2 that
 * the ship uses (addition, scaling, length and rescaling to a length).
 *
 * Square roots are not computable over Dafny's reals, so every operation that
 * needs a length takes the square root as a parameter `sqrt`, required to be
 * the non-negative square root on non-negative arguments (IsSqrt).
 */
module Vectors {

  datatype Vec2 = Vec2(x: real, y: real) {

    /** Component-wise sum, as `v + w` on pygame vectors. */
    function Add(w: Vec2): Vec2 {
      Vec2(x + w.x, y + w.y)
    }

    /** Multiplication by a scalar, as `v * k` on pygame vectors. */
    function Scale(k: real): Vec2 {
      Vec2(k * x, k * y)
    }

    function Dot(w: Vec2): real {
      x * w.x + y * w.y
    }

    /** The z component of the cross product; zero exactly when the two are parallel. */
    function Cross(w: Vec2): real {
      x * w.y - y * w.x
    }

    /** The squared Euclidean length, which needs no square root. */
    function LengthSq(): (r: real)
      ensures 0.0 <= r
    {
      SquareSign(x);
      SquareSign(y);
      x * x + y * y
    }
  }

  lemma SquareSign(a: real)
    ensures 0.0 <= a * a
  {
    if a < 0.0 {
      assert 0.0 < (-a) * (-a);
    }
  }

  /** Squaring is monotone on the non-negative reals. */
  lemma SquareMonotone(a: real, b: real)
    requires 0.0 <= a && 0.0 <= b
    ensures a <= b ==> a * a <= b * b
    ensures a < b ==> a * a < b * b
  {
    if a <= b {
      assert a * a <= a * b;
      assert a * b <= b * b;
    }
    if a < b {
      var d, t := b - a, b + a;
      assert 0.0 < d * t;
      assert d * t == b * b - a * a;
    }
  }

  const Zero: Vec2 := Vec2(0.0, 0.0)

  /** If `c` is non-negative, `sqrt(c)` is its non-negative square root. */
  ghost predicate SqrtAt(sqrt: real -> real, c: real) {
    0.0 <= c ==> 0.0 <= sqrt(c) && sqrt(c) * sqrt(c) == c
  }

  /** `sqrt` is the non-negative square root on every non-negative real. */
  ghost predicate IsSqrt(sqrt: real -> real) {
    forall c :: SqrtAt(sqrt, c)
  }

  /** `u` points the same way as `v`: the two are parallel and not opposed. */
  predicate SameDirection(u: Vec2, v: Vec2) {
    u.Cross(v) == 0.0 && 0.0 <= u.Dot(v)
  }

  /** Vector2.length: the Euclidean length. */
  function Length(v: Vec2, sqrt: real -> real): (r: real)
    requires IsSqrt(sqrt)
    ensures 0.0 <= r && r * r == v.LengthSq()
  {
    assert SqrtAt(sqrt, v.LengthSq());
    sqrt(v.LengthSq())
  }

  /**
   * Vector2.scale_to_length: the vector of length `len` in the direction of
   * `v`. pygame refuses a vector of length zero, hence the requirement on `v`.
   */
  function ScaleToLength(v: Vec2, len: real, sqrt: real -> real): (r: Vec2)
    requires IsSqrt(sqrt)
    requires 0.0 < v.LengthSq() && 0.0 <= len
    ensures r.LengthSq() == len * len
    ensures SameDirection(r, v)
  {
    var n := Length(v, sqrt);
    var k := len / n;
    ScaledLengthSq(v, k);
    assert k * k * (n * n) == len * len by {
      assert k * n == len;
    }
    assert v.Scale(k).Dot(v) == k * v.LengthSq();
    assert 0.0 <= k;
    v.Scale(k)
  }

  lemma ScaledLengthSq(v: Vec2, k: real)
    ensures v.Scale(k).LengthSq() == k * k * v.LengthSq()
  {
  }

  /**
   * Scaling by a factor of magnitude at most one (friction) never makes a
   * vector longer.
   */
  lemma ScaleShrinks(v: Vec2, k: real)
    requires -1.0 <= k <= 1.0
    ensures v.Scale(k).LengthSq() <= v.LengthSq()
  {
    ScaledLengthSq(v, k);
    assert k * k <= 1.0 by {
      if 0.0 <= k {
        assert k * k <= k * 1.0;
      } else {
        assert k * k <= (-k) * 1.0;
      }
    }
    assert k * k * v.LengthSq() <= 1.0 * v.LengthSq();
  }
}
