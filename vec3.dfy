/** Real-valued 3-vectors (src/vec3.rs).

    The source computes on f32; this model idealises every component as a
    `real`.  The square root used by `length` is not definable here, so every
    operation that needs one takes it as a parameter `sqrt` together with the
    requirement `IsSqrt(sqrt)`: it maps each non-negative real to its
    non-negative square root.
 */
module Vectors {

  datatype Vec3 = Vec3(x: real, y: real, z: real)

  const Zero: Vec3 := Vec3(0.0, 0.0, 0.0)

  /** `sqrt` returns the non-negative square root of every non-negative real. */
  ghost predicate IsSqrt(sqrt: real -> real) {
    forall a: real :: 0.0 <= a ==> 0.0 <= sqrt(a) && sqrt(a) * sqrt(a) == a
  }

  /** `impl Add for Vec3`: the component-wise sum. */
  function Add(a: Vec3, b: Vec3): Vec3 {
    Vec3(a.x + b.x, a.y + b.y, a.z + b.z)
  }

  /** `impl Sub for Vec3`: the component-wise difference. */
  function Sub(a: Vec3, b: Vec3): Vec3 {
    Vec3(a.x - b.x, a.y - b.y, a.z - b.z)
  }

  /** Subtraction undoes addition and addition undoes subtraction:
      `(a + b) - b == a` and `(a - b) + b == a`. */
  lemma AddSubCancel(a: Vec3, b: Vec3)
    ensures Sub(Add(a, b), b) == a
    ensures Add(Sub(a, b), b) == a
  {
  }

  /** `impl Mul<f32> for Vec3`: `v * f`; 1 is neutral and 0 annihilates. */
  function MulScalar(v: Vec3, f: real): (r: Vec3)
    ensures f == 1.0 ==> r == v
    ensures f == 0.0 ==> r == Zero
  {
    Vec3(v.x * f, v.y * f, v.z * f)
  }

  /** Scaling by `f` scales squared lengths by `f * f`. */
  lemma SquaredLengthScaled(v: Vec3, f: real)
    ensures SquaredLength(MulScalar(v, f)) == f * f * SquaredLength(v)
  {
  }

  /** `impl Mul<Vec3> for f32`: `f * v`, which the source defines as `v * f`. */
  function ScalarMul(f: real, v: Vec3): (r: Vec3)
    ensures f == 1.0 ==> r == v
    ensures f == 0.0 ==> r == Zero
  {
    MulScalar(v, f)
  }

  /** `impl Mul<Vec3> for Vec3`: the component-wise (Hadamard) product. */
  function MulVec(a: Vec3, b: Vec3): (r: Vec3)
    ensures b == Vec3(1.0, 1.0, 1.0) ==> r == a
    ensures b == Zero ==> r == Zero
  {
    Vec3(a.x * b.x, a.y * b.y, a.z * b.z)
  }

  /** `impl Div<f32> for Vec3`: `v / f`; multiplying by `f` again gives `v` back.
      A zero divisor, which yields infinities in f32, is excluded. */
  function DivScalar(v: Vec3, f: real): (r: Vec3)
    requires f != 0.0
    ensures MulScalar(r, f) == v
  {
    Vec3(v.x / f, v.y / f, v.z / f)
  }

  /** `Vec3::dot`. */
  function Dot(a: Vec3, b: Vec3): real {
    a.x * b.x + a.y * b.y + a.z * b.z
  }

  /** `Vec3::squared_length`: the dot product of `v` with itself. */
  function SquaredLength(v: Vec3): (r: real)
    ensures r == Dot(v, v)
  {
    v.x * v.x + v.y * v.y + v.z * v.z
  }

  /** A squared length is non-negative, and zero exactly for the zero vector. */
  lemma SquaredLengthFacts(v: Vec3)
    ensures 0.0 <= SquaredLength(v)
    ensures SquaredLength(v) == 0.0 <==> v == Zero
  {
    SquaresNonNegative(v);
  }

  lemma SquaresNonNegative(v: Vec3)
    ensures 0.0 <= v.x * v.x && 0.0 <= v.y * v.y && 0.0 <= v.z * v.z
    ensures v.x * v.x + v.y * v.y + v.z * v.z == 0.0 ==> v == Zero
  {
    SquarePositive(v.x);
    SquarePositive(v.y);
    SquarePositive(v.z);
    if v.x * v.x + v.y * v.y + v.z * v.z == 0.0 {
      SquareZero(v.x);
      SquareZero(v.y);
      SquareZero(v.z);
    }
  }

  /** A product of two reals is zero only if a factor is. */
  lemma ProductZero(a: real, b: real)
    requires a * b == 0.0
    ensures a == 0.0 || b == 0.0
  {
    if a != 0.0 {
      assert b == (a * b) / a;
    }
  }

  lemma ProductPositive(a: real, b: real)
    requires 0.0 < a && 0.0 < b
    ensures 0.0 < a * b
  {
  }

  /** Multiplying by a positive factor keeps the order. */
  lemma MulMonotone(a: real, b: real, k: real)
    requires 0.0 < k
    ensures a <= b ==> a * k <= b * k
  {
    if a < b {
      ProductPositive(b - a, k);
    }
  }

  /** Multiplying by a negative factor reverses the order. */
  lemma MulAntitone(a: real, b: real, k: real)
    requires k < 0.0
    ensures a <= b ==> b * k <= a * k
  {
    if a < b {
      ProductPositive(b - a, -k);
    }
  }

  /** Dividing by a positive real keeps the order. */
  lemma DivMonotone(a: real, b: real, d: real)
    requires 0.0 < d
    ensures a <= b ==> a / d <= b / d
  {
    MulMonotone(a, b, 1.0 / d);
    MulReciprocal(a, d);
    MulReciprocal(b, d);
  }

  /** Dividing by a negative real reverses the order. */
  lemma DivAntitone(a: real, b: real, d: real)
    requires d < 0.0
    ensures a <= b ==> b / d <= a / d
  {
    Reciprocal(d);
    MulAntitone(a, b, 1.0 / d);
    MulReciprocal(a, d);
    MulReciprocal(b, d);
  }

  /** The reciprocal of a non-zero real is non-zero and has its sign. */
  lemma Reciprocal(d: real)
    requires d != 0.0
    ensures 1.0 / d < 0.0 <==> d < 0.0
    ensures 1.0 / d != 0.0
  {
    assert d * (1.0 / d) == 1.0;
  }

  /** Multiplying by the reciprocal is dividing. */
  lemma MulReciprocal(a: real, d: real)
    requires d != 0.0
    ensures a * (1.0 / d) == a / d
  {
  }

  lemma SquarePositive(a: real)
    ensures 0.0 <= a * a
    ensures a != 0.0 ==> 0.0 < a * a
  {
    if a < 0.0 {
      ProductPositive(-a, -a);
      assert (-a) * (-a) == a * a;
    } else if a > 0.0 {
      ProductPositive(a, a);
    }
  }

  lemma SquareZero(a: real)
    requires a * a == 0.0
    ensures a == 0.0
  {
    ProductZero(a, a);
  }

  /** A non-zero factor cancels. */
  lemma Cancel(k: real, a: real, b: real)
    requires k != 0.0 && k * a == k * b
    ensures a == b
  {
    assert k * (a - b) == 0.0;
    ProductZero(k, a - b);
  }

  /** `Vec3::cross`. */
  function Cross(a: Vec3, b: Vec3): Vec3 {
    Vec3(a.y * b.z - a.z * b.y, -(a.x * b.z - a.z * b.x), a.x * b.y - a.y * b.x)
  }

  /** The cross product of a vector with itself is zero. */
  lemma CrossSelf(a: Vec3)
    ensures Cross(a, a) == Zero
  {
  }

  /** The cross product is orthogonal to both of its arguments. */
  lemma CrossOrthogonal(a: Vec3, b: Vec3)
    ensures Dot(Cross(a, b), a) == 0.0 && Dot(Cross(a, b), b) == 0.0
  {
  }

  /** Lagrange's identity on components: `|a|^2 |b|^2 - (a.b)^2 = |a x b|^2`. */
  lemma LagrangeComponents(p: real, q: real, r: real, u: real, v: real, w: real)
    ensures (p * p + q * q + r * r) * (u * u + v * v + w * w)
            - (p * u + q * v + r * w) * (p * u + q * v + r * w)
            == (q * w - r * v) * (q * w - r * v)
             + (-(p * w - r * u)) * (-(p * w - r * u))
             + (p * v - q * u) * (p * v - q * u)
  {
  }

  /** Cauchy-Schwarz: `(a.b)^2 <= |a|^2 |b|^2`. */
  lemma CauchySchwarz(a: Vec3, b: Vec3)
    ensures Dot(a, b) * Dot(a, b) <= SquaredLength(a) * SquaredLength(b)
  {
    CauchySchwarzComponents(a.x, a.y, a.z, b.x, b.y, b.z, SquaredLength(a), SquaredLength(b), Dot(a, b));
  }

  /** Cauchy-Schwarz on components, with the three sums as parameters. */
  lemma CauchySchwarzComponents(p: real, q: real, r: real, u: real, v: real, w: real, aa: real, bb: real, ab: real)
    requires aa == p * p + q * q + r * r && bb == u * u + v * v + w * w && ab == p * u + q * v + r * w
    ensures ab * ab <= aa * bb
  {
    LagrangeComponents(p, q, r, u, v, w);
    assert aa * bb - ab * ab == (q * w - r * v) * (q * w - r * v) + (p * w - r * u) * (p * w - r * u)
                                + (p * v - q * u) * (p * v - q * u);
    SquarePositive(q * w - r * v);
    SquarePositive(p * w - r * u);
    SquarePositive(p * v - q * u);
  }

  /** Linearity of `dot` in its first argument, for `v - k n`. */
  lemma DotSubScaled(v: Vec3, n: Vec3, w: Vec3, k: real)
    ensures Dot(Sub(v, MulScalar(n, k)), w) == Dot(v, w) - k * Dot(n, w)
  {
  }

  /** Linearity of `dot` in its first argument, for `v + k n`. */
  lemma DotAddScaled(v: Vec3, n: Vec3, w: Vec3, k: real)
    ensures Dot(Add(v, MulScalar(n, k)), w) == Dot(v, w) + k * Dot(n, w)
  {
  }

  /** `dot` distributes over `+` in its first argument. */
  lemma DotAdd(a: Vec3, b: Vec3, w: Vec3)
    ensures Dot(Add(a, b), w) == Dot(a, w) + Dot(b, w)
  {
  }

  /** `dot` of a scaled vector. */
  lemma DotScaled(v: Vec3, w: Vec3, k: real)
    ensures Dot(MulScalar(v, k), w) == k * Dot(v, w)
  {
  }

  /** Squared length of `v - k n`, expanded. */
  lemma SquaredLengthSubScaled(v: Vec3, n: Vec3, k: real)
    ensures SquaredLength(Sub(v, MulScalar(n, k))) == SquaredLength(v) - 2.0 * k * Dot(v, n) + k * k * SquaredLength(n)
  {
    DotSubScaled(v, n, Sub(v, MulScalar(n, k)), k);
    DotSubScaled(v, n, v, k);
    DotSubScaled(v, n, n, k);
    DotSymmetric(v, Sub(v, MulScalar(n, k)));
    DotSymmetric(n, Sub(v, MulScalar(n, k)));
    DotSymmetric(n, v);
    ExpandSubScaled(SquaredLength(Sub(v, MulScalar(n, k))), SquaredLength(v), Dot(v, n), SquaredLength(n), k,
                    Dot(v, Sub(v, MulScalar(n, k))), Dot(n, Sub(v, MulScalar(n, k))), Dot(n, v));
  }

  lemma ExpandSubScaled(ww: real, vv: real, vn: real, nn: real, k: real, x: real, y: real, nv: real)
    requires ww == x - k * y && x == vv - k * nv && y == vn - k * nn && nv == vn
    ensures ww == vv - 2.0 * k * vn + k * k * nn
  {
  }

  /** `cross` is linear in its first argument and kills multiples of the second. */
  lemma CrossSubScaled(a: Vec3, n: Vec3, k: real)
    ensures Cross(Sub(a, MulScalar(n, k)), n) == Cross(a, n)
  {
  }

  lemma CrossScaled(a: Vec3, n: Vec3, k: real)
    ensures Cross(MulScalar(a, k), n) == MulScalar(Cross(a, n), k)
  {
    assert Cross(MulScalar(a, k), n).x == MulScalar(Cross(a, n), k).x;
    assert Cross(MulScalar(a, k), n).y == MulScalar(Cross(a, n), k).y;
    assert Cross(MulScalar(a, k), n).z == MulScalar(Cross(a, n), k).z;
  }

  /** One component of `Vec3::clamp`: above `hi` gives `hi`, else below `lo`
      gives `lo`, else the value itself. */
  function ClampComponent(c: real, lo: real, hi: real): (r: real)
    ensures lo <= hi ==> lo <= r <= hi
    ensures lo <= c <= hi ==> r == c
    ensures c > hi ==> r == hi
    ensures c <= hi && c < lo ==> r == lo
  {
    if c > hi then hi else if c < lo then lo else c
  }

  /** `Vec3::clamp`: with `lo <= hi` on every axis the result lies in the box
      `[lo, hi]`, and a vector already inside it is unchanged; on each axis a
      component above `hi` gives `hi`, and one below `lo` (and not above
      `hi`) gives `lo`. */
  function Clamp(v: Vec3, lo: Vec3, hi: Vec3): (r: Vec3)
    ensures lo.x <= hi.x && lo.y <= hi.y && lo.z <= hi.z ==>
              lo.x <= r.x <= hi.x && lo.y <= r.y <= hi.y && lo.z <= r.z <= hi.z
    ensures lo.x <= v.x <= hi.x && lo.y <= v.y <= hi.y && lo.z <= v.z <= hi.z ==> r == v
    ensures (v.x > hi.x ==> r.x == hi.x) && (v.y > hi.y ==> r.y == hi.y) && (v.z > hi.z ==> r.z == hi.z)
    ensures (v.x <= hi.x && v.x < lo.x ==> r.x == lo.x) && (v.y <= hi.y && v.y < lo.y ==> r.y == lo.y) &&
            (v.z <= hi.z && v.z < lo.z ==> r.z == lo.z)
  {
    Vec3(ClampComponent(v.x, lo.x, hi.x), ClampComponent(v.y, lo.y, hi.y), ClampComponent(v.z, lo.z, hi.z))
  }

  /** Clamping twice to the same well-formed box is the same as clamping once. */
  lemma {:induction false} ClampIdempotent(v: Vec3, lo: Vec3, hi: Vec3)
    requires lo.x <= hi.x && lo.y <= hi.y && lo.z <= hi.z
    ensures Clamp(Clamp(v, lo, hi), lo, hi) == Clamp(v, lo, hi)
  {
  }

  /** `dot` is symmetric. */
  lemma DotSymmetric(a: Vec3, b: Vec3)
    ensures Dot(a, b) == Dot(b, a)
  {
  }

  /** `f * v` and `v * f` are the same vector. */
  lemma ScalarMulCommutes(f: real, v: Vec3)
    ensures ScalarMul(f, v) == MulScalar(v, f)
  {
  }

  /** A dot product with a zero vector is zero. */
  lemma DotWithZero(a: Vec3, b: Vec3)
    requires a == Zero || b == Zero
    ensures Dot(a, b) == 0.0
  {
  }

  /** The parameter `sqrt` at one point: non-negative, squares back, and zero only at zero. */
  lemma SqrtFacts(sqrt: real -> real, a: real)
    requires IsSqrt(sqrt) && 0.0 <= a
    ensures 0.0 <= sqrt(a) && sqrt(a) * sqrt(a) == a
    ensures sqrt(a) == 0.0 <==> a == 0.0
  {
    var r := sqrt(a);
    assert 0.0 <= r && r * r == a;
    if a == 0.0 {
      SquareZero(r);
    }
  }

  /** `Vec3::length`: the square root of `squared_length`. */
  function Length(v: Vec3, sqrt: real -> real): (r: real)
    requires IsSqrt(sqrt)
    ensures 0.0 <= r && r * r == SquaredLength(v)
    ensures r == 0.0 <==> v == Zero
  {
    var sl := SquaredLength(v);
    SquaredLengthFacts(v);
    SqrtFacts(sqrt, sl);
    sqrt(sl)
  }

  /** What `unit_vector` returns: `v` divided by its length.  It points the
      same way as `v` and, over the reals, has squared length 1. */
  function Unit(v: Vec3, sqrt: real -> real): (r: Vec3)
    requires IsSqrt(sqrt) && v != Zero
    ensures SquaredLength(r) == 1.0
    ensures MulScalar(r, Length(v, sqrt)) == v
  {
    SquaredLengthScaled(DivScalar(v, Length(v, sqrt)), Length(v, sqrt));
    ScaledUnit(Length(v, sqrt), SquaredLength(DivScalar(v, Length(v, sqrt))), SquaredLength(v));
    DivScalar(v, Length(v, sqrt))
  }

  /** If `|w|^2 = k^2 |u|^2` and `|w|^2 = k^2` for `k != 0`, then `|u|^2 = 1`. */
  lemma ScaledUnit(k: real, su: real, sw: real)
    requires k != 0.0 && sw == k * k * su && sw == k * k
    ensures su == 1.0
  {
    assert k * k * (su - 1.0) == 0.0;
    ProductZero(k * k, su - 1.0);
    if k * k == 0.0 {
      ProductZero(k, k);
    }
  }

  /** A `Vec3` held in a mutable place, for `Vec3::normalize(&mut self)`,
      which updates the three components in place. */
  class Vec3Cell {
    var x: real
    var y: real
    var z: real

    constructor (v: Vec3)
      ensures Value() == v
    {
      x, y, z := v.x, v.y, v.z;
    }

    function Value(): Vec3
      reads this
    {
      Vec3(x, y, z)
    }

    /** `normalize`: divide x, y and z in place by the length taken before the update. */
    method Normalize(sqrt: real -> real)
      requires IsSqrt(sqrt) && Value() != Zero
      modifies this
      ensures Value() == Unit(old(Value()), sqrt)
      ensures SquaredLength(Value()) == 1.0
    {
      var length := Length(Value(), sqrt);
      x := x / length;
      y := y / length;
      z := z / length;
    }
  }

  /** `unit_vector`: copy `v`, normalise the copy in place and return it; the
      argument itself is a value and stays as it was. */
  method UnitVector(v: Vec3, sqrt: real -> real) returns (nv: Vec3)
    requires IsSqrt(sqrt) && v != Zero
    ensures nv == Unit(v, sqrt)
    ensures SquaredLength(nv) == 1.0
  {
    var cell := new Vec3Cell(v);
    cell.Normalize(sqrt);
    nv := cell.Value();
  }
}
