/**
 Three-component vector arithmetic over exact reals (vec3.py).

 Floating-point numbers are modelled by `real`; `math.sqrt` is not
 interpreted: every operation that needs it takes a `SqrtFn`, a function
 of which nothing is known except that its results are non-negative.
 */
module Vector {

  /** A real function standing for `math.sqrt`. */
  datatype SquareRoot = SquareRoot(apply: real -> real)

  /** The stand-in for `math.sqrt`: any function with non-negative results. */
  type SqrtFn = r: SquareRoot | forall s: real :: 0.0 <= r.apply(s) witness SquareRoot((s: real) => 0.0)

  /** The padding `norm` adds to the square root, so that it is never zero. */
  const Epsilon: real := 0.000001

  /** A vector as a value: the source never mutates a stored vector, only fresh ones. */
  datatype Vec3 = Vec3(x: real, y: real, z: real) {

    /** `a + b`: componentwise sum. */
    function Add(other: Vec3): (r: Vec3)
    {
      Vec3(x + other.x, y + other.y, z + other.z)
    }

    /** `a - b`: componentwise difference. */
    function Sub(other: Vec3): (r: Vec3)
    {
      Vec3(x - other.x, y - other.y, z - other.z)
    }

    /** `a * s`: every component multiplied by the scalar, scalar on the left. */
    function Scale(scalar: real): (r: Vec3)
    {
      Vec3(scalar * x, scalar * y, scalar * z)
    }

    /** Sum of the squared components, the argument `norm` passes to the square root. */
    function SquaredLength(): (r: real)
      ensures 0.0 <= r
    {
      x * x + y * y + z * z
    }

    /** `norm()`: the square root of the squared length, padded by `Epsilon`. */
    function Norm(sqrt: SqrtFn): (r: real)
      ensures Epsilon <= r
      ensures 0.0 < r
    {
      sqrt.apply(SquaredLength()) + Epsilon
    }

    /** The value `normalize` leaves in the vector: each component divided by `Norm`. */
    function Normalized(sqrt: SqrtFn): (r: Vec3)
      ensures r.Scale(Norm(sqrt)) == this
    {
      var n := Norm(sqrt);
      Vec3(x / n, y / n, z / n)
    }

    /** `cross(other)`, exactly as written: the z component is
        `x * other.y - y * other.z`, not the textbook `x * other.y - y * other.x`. */
    function Cross(other: Vec3): (r: Vec3)
      ensures other == Vec3(0.0, 0.0, 0.0) ==> r == Vec3(0.0, 0.0, 0.0)
      ensures other == this ==> r == Vec3(0.0, 0.0, x * y - y * z)
    {
      Vec3(y * other.z - z * other.y, z * other.x - x * other.z, x * other.y - y * other.z)
    }
  }

  const Zero: Vec3 := Vec3(0.0, 0.0, 0.0)

  /** A vector object whose fields `normalize` overwrites in place. */
  class MutVec3 {
    var x: real
    var y: real
    var z: real

    constructor (v: Vec3)
      ensures Value() == v
    {
      x, y, z := v.x, v.y, v.z;
    }

    function Value(): Vec3
      reads this
    {
      Vec3(x, y, z)
    }

    /** `normalize()`: divides every component by the norm the vector had on
        entry and returns that norm. The divisor is at least `Epsilon`. */
    method Normalize(sqrt: SqrtFn) returns (norm: real)
      modifies this
      ensures norm == old(Value()).Norm(sqrt) && Epsilon <= norm
      ensures Value() == old(Value()).Normalized(sqrt)
    {
      norm := Value().Norm(sqrt);
      x := x / norm;
      y := y / norm;
      z := z / norm;
    }
  }

  /** `a - a` is the zero vector. */
  lemma SubSelfIsZero(a: Vec3)
    ensures a.Sub(a) == Zero
  {
  }

  /** Adding `b` is undone by subtracting it: `(a + b) - b == a`. */
  lemma AddThenSubIsIdentity(a: Vec3, b: Vec3)
    ensures a.Add(b).Sub(b) == a
  {
  }

  /** `a + b == b + a`. */
  lemma AddCommutes(a: Vec3, b: Vec3)
    ensures a.Add(b) == b.Add(a)
  {
  }

  /** `a * 1.0 == a`. */
  lemma ScaleByOneIsIdentity(a: Vec3)
    ensures a.Scale(1.0) == a
  {
  }

  /** The x and y components of `Cross` are those of the textbook cross product. */
  lemma CrossXYAreTextbook(a: Vec3, b: Vec3)
    ensures a.Cross(b).x == a.y * b.z - a.z * b.y
    ensures a.Cross(b).y == a.z * b.x - a.x * b.z
  {
  }

  /** The z component is not the textbook one: a vector crossed with itself
      need not give zero (the textbook product always does). */
  lemma CrossIsNotTextbook()
    ensures Vec3(1.0, 1.0, 0.0).Cross(Vec3(1.0, 1.0, 0.0)) == Vec3(0.0, 0.0, 1.0)
    ensures Vec3(1.0, 1.0, 0.0).Cross(Vec3(1.0, 1.0, 0.0)) != Zero
  {
  }

  /** When `sqrt` is exact at the squared length, the padding makes the
      normalized vector strictly shorter than one. */
  lemma NormalizedIsShorterThanOne(v: Vec3, sqrt: SqrtFn)
    requires sqrt.apply(v.SquaredLength()) * sqrt.apply(v.SquaredLength()) == v.SquaredLength()
    ensures v.Normalized(sqrt).SquaredLength() < 1.0
  {
    var s := v.SquaredLength();
    var r := sqrt.apply(s);
    var n := v.Norm(sqrt);
    var u := v.Normalized(sqrt);
    assert n == r + Epsilon && 0.0 <= r;
    assert u.x * n == v.x && u.y * n == v.y && u.z * n == v.z;
    calc {
      u.SquaredLength() * (n * n);
      (u.x * n) * (u.x * n) + (u.y * n) * (u.y * n) + (u.z * n) * (u.z * n);
      s;
      r * r;
    }
    assert r * r < n * n by {
      assert r < n;
      assert r * r <= r * n;
      assert r * n < n * n;
    }
    assert u.SquaredLength() * (n * n) < 1.0 * (n * n);
  }
}
