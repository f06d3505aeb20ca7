/** Three-dimensional vectors over the reals and the numeric primitives the
    curve code borrows from the engine's math library. Square root, the
    trigonometric functions and vector normalisation are not computed here:
    they are fields of a `Numerics` record that every caller passes in, and
    `Valid` states the few facts about them that the proofs rely on. */
module Geometry {
  import opened Base

  datatype Vec = Vec(x: real, y: real, z: real) {
    function Add(o: Vec): Vec { Vec(x + o.x, y + o.y, z + o.z) }
    function Sub(o: Vec): Vec { Vec(x - o.x, y - o.y, z - o.z) }
    function Scale(k: real): Vec { Vec(x * k, y * k, z * k) }
    function Neg(): Vec { Vec(-x, -y, -z) }
    function Dot(o: Vec): real { x * o.x + y * o.y + z * o.z }
    function Cross(o: Vec): Vec {
      Vec(y * o.z - z * o.y, z * o.x - x * o.z, x * o.y - y * o.x)
    }
    function LengthSquared(): real { Dot(this) }
  }

  const Zero: Vec := Vec(0.0, 0.0, 0.0)
  const UnitY: Vec := Vec(0.0, 1.0, 0.0)

  /** `MathF.Pi`, the float nearest to pi. */
  const Pi: real := 3.1415927

  /** `MathF.Sqrt2`, the float nearest to the square root of two. */
  const Sqrt2: real := 1.4142135

  /** The engine's numeric primitives, supplied by the caller. */
  datatype Numerics = Numerics(
    sqrt: real -> real,
    sin: real -> real,
    cos: real -> real,
    acos: real -> real,
    atan2: (real, real) -> real,
    normalized: Vec -> Vec,
    normalizedSafe: Vec -> Vec)

  /** The facts about the primitives that the model uses: the square root of
      a non-negative number is a non-negative root of it, sin 0 = 0,
      cos 0 = 1, sin^2 + cos^2 = 1, and `acos` lands in [0, pi]. */
  ghost predicate Valid(m: Numerics) {
    && m.sin(0.0) == 0.0
    && m.cos(0.0) == 1.0
    && (forall a :: m.sin(a) * m.sin(a) + m.cos(a) * m.cos(a) == 1.0)
    && (forall a :: 0.0 <= m.acos(a) <= Pi)
    && (forall a :: 0.0 <= a ==> 0.0 <= m.sqrt(a) && m.sqrt(a) * m.sqrt(a) == a)
  }

  /** `Vector.Length`. */
  function Length(m: Numerics, v: Vec): real {
    m.sqrt(v.LengthSquared())
  }

  lemma SquareNonNegative(a: real)
    ensures a * a >= 0.0
  {
  }

  lemma LengthSquaredNonNegative(v: Vec)
    ensures v.LengthSquared() >= 0.0
  {
    SquareNonNegative(v.x);
    SquareNonNegative(v.y);
    SquareNonNegative(v.z);
  }

  lemma LengthNonNegative(m: Numerics, v: Vec)
    requires Valid(m)
    ensures Length(m, v) >= 0.0
    ensures Length(m, v) * Length(m, v) == v.LengthSquared()
  {
    LengthSquaredNonNegative(v);
  }

  lemma ProductPositive(a: real, b: real)
    requires a > 0.0 && b > 0.0
    ensures a * b > 0.0
  {
  }

  lemma ProductNonNegative(a: real, b: real)
    requires a >= 0.0 && b >= 0.0
    ensures a * b >= 0.0
  {
  }

  lemma SquarePositive(a: real)
    requires a != 0.0
    ensures a * a > 0.0
  {
    if a > 0.0 {
      ProductPositive(a, a);
    } else {
      ProductPositive(-a, -a);
    }
  }

  /** Only the zero vector has squared length zero. */
  lemma LengthSquaredPositive(v: Vec)
    requires v != Zero
    ensures v.LengthSquared() > 0.0
  {
    assert v.x != 0.0 || v.y != 0.0 || v.z != 0.0;
    SumOfSquaresPositive(v.x, v.y, v.z);
    calc {
      v.LengthSquared();
    ==
      v.x * v.x + v.y * v.y + v.z * v.z;
    >
      0.0;
    }
  }

  lemma SumOfSquaresPositive(a: real, b: real, c: real)
    requires a != 0.0 || b != 0.0 || c != 0.0
    ensures a * a + b * b + c * c > 0.0
  {
    SquareNonNegative(a);
    SquareNonNegative(b);
    SquareNonNegative(c);
    if a != 0.0 {
      SquarePositive(a);
    } else if b != 0.0 {
      SquarePositive(b);
    } else {
      SquarePositive(c);
    }
  }

  /** Squaring is strictly increasing on the non-negative reals. */
  lemma SquareStrictlyIncreasing(s: real, a: real)
    requires 0.0 <= s < a
    ensures s * s < a * a
  {
    assert (a - s) * a > 0.0;
    assert s * (a - s) >= 0.0;
  }

  /** A square root dominates every number whose square it dominates. */
  lemma RootDominates(s: real, b: real)
    requires s >= 0.0
    requires s * s >= b * b
    ensures s >= b
    ensures s >= -b
  {
    if s < b {
      SquareStrictlyIncreasing(s, b);
    }
    if s < -b {
      SquareStrictlyIncreasing(s, -b);
    }
  }

  /** The square root of a perfect square is its absolute value. */
  lemma {:induction false} RootOfSquare(m: Numerics, k: real)
    requires Valid(m)
    requires k >= 0.0
    ensures m.sqrt(k * k) == k
  {
    var s := m.sqrt(k * k);
    SquareNonNegative(k);
    assert s >= 0.0 && s * s == k * k;
    RootDominates(s, k);
    RootDominates(k, s);
  }

  /** The cross product's squared length is the Lagrange identity
      |a|^2 |b|^2 - (a.b)^2; in particular `(t x (p x t)) . p` is the squared
      length of `p x t`, never negative. */
  lemma TripleProductIsSquare(p: Vec, t: Vec)
    ensures t.Cross(p.Cross(t)).Dot(p) == p.Cross(t).LengthSquared()
    ensures t.Cross(p.Cross(t)).Dot(p) >= 0.0
  {
    var n := p.Cross(t);
    assert t.Cross(n).Dot(p) == n.Dot(p.Cross(t));
    LengthSquaredNonNegative(n);
  }

  /** A cross product is perpendicular to its left factor. */
  lemma CrossOrthogonal(a: Vec, b: Vec)
    ensures a.Cross(b).Dot(a) == 0.0
    ensures a.Cross(b).Dot(b) == 0.0
  {
  }

  /** Scaling a vector scales its squared length by the square. */
  lemma ScaleLengthSquared(v: Vec, k: real)
    ensures v.Scale(k).LengthSquared() == k * k * v.LengthSquared()
  {
    assert v.Scale(k).LengthSquared() == (v.x * k) * (v.x * k) + (v.y * k) * (v.y * k) + (v.z * k) * (v.z * k);
  }

  lemma DotScale(a: Vec, b: Vec, k: real)
    ensures a.Dot(b.Scale(k)) == k * a.Dot(b)
    ensures a.Scale(k).Dot(b) == k * a.Dot(b)
  {
  }

  /** `|a - b|^2 = |a|^2 - 2 a.b + |b|^2`. */
  lemma SubLengthSquared(a: Vec, b: Vec)
    ensures a.Sub(b).LengthSquared() == a.LengthSquared() - 2.0 * a.Dot(b) + b.LengthSquared()
  {
  }

  /** `|a + k b|^2 = |a|^2 + 2 k a.b + k^2 |b|^2`. */
  lemma AddScaleLengthSquared(a: Vec, b: Vec, k: real)
    ensures a.Add(b.Scale(k)).LengthSquared() == a.LengthSquared() + 2.0 * k * a.Dot(b) + k * k * b.LengthSquared()
  {
    var c := b.Scale(k);
    assert a.Add(c).LengthSquared() == a.LengthSquared() + 2.0 * a.Dot(c) + c.LengthSquared();
    DotScale(a, b, k);
    ScaleLengthSquared(b, k);
  }

  lemma AbsSquare(x: real)
    ensures Abs(x) * Abs(x) == x * x
  {
  }
}
