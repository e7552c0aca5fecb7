/** Ray-triangle intersection (src/triangle.rs), the Moller-Trumbore test.

    With `edge1 = p2 - p1`, `edge2 = p3 - p1`, `s = origin - p1`,
    `h = d x edge2`, `q = s x edge1` and the determinant `a = edge1 . h`, the
    source rejects a ray whose determinant lies strictly between `-EPSILON`
    and `EPSILON`, and then computes the barycentric coordinates
    `u = (s . h) / a`, `v = (d . q) / a` and the ray parameter
    `t = (edge2 . q) / a`.  By Cramer's rule these solve
    `origin + t d = p1 + u edge1 + v edge2`, which is proved below. */
module Triangles {
  import opened Options
  import opened Vectors
  import opened Rays
  import opened Materials
  import opened Hits
  import opened Boxes

  datatype Triangle = Triangle(p1: Vec3, p2: Vec3, p3: Vec3, normal: Vec3, material: Material)

  /** `EPSILON` of `Triangle::hit`. */
  const Epsilon: real := 0.0000001

  /** `delta` of `Triangle::bounding_box`. */
  const Delta: real := 0.001

  function Edge1(tri: Triangle): Vec3 {
    Sub(tri.p2, tri.p1)
  }

  function Edge2(tri: Triangle): Vec3 {
    Sub(tri.p3, tri.p1)
  }

  /** The determinant `a = edge1 . (d x edge2)`. */
  function Determinant(tri: Triangle, r: Ray): real {
    Dot(Edge1(tri), Cross(r.direction, Edge2(tri)))
  }

  /** The source's test for a ray parallel to the triangle's plane:
      `a > -EPSILON && a < EPSILON`. */
  predicate Parallel(tri: Triangle, r: Ray) {
    Determinant(tri, r) > -Epsilon && Determinant(tri, r) < Epsilon
  }

  /** `f * n` with `f = 1 / a`: the number that `a` times gives `n`. */
  function Quotient(n: real, a: real): (q: real)
    requires a != 0.0
    ensures a * q == n
  {
    (1.0 / a) * n
  }

  /** `u = f * (s . h)` with `f = 1 / a`. */
  function BaryU(tri: Triangle, r: Ray): real
    requires !Parallel(tri, r)
  {
    Quotient(Dot(Sub(r.origin, tri.p1), Cross(r.direction, Edge2(tri))), Determinant(tri, r))
  }

  /** `v = f * (d . q)` with `q = s x edge1`. */
  function BaryV(tri: Triangle, r: Ray): real
    requires !Parallel(tri, r)
  {
    Quotient(Dot(r.direction, Cross(Sub(r.origin, tri.p1), Edge1(tri))), Determinant(tri, r))
  }

  /** `t = f * (edge2 . q)`. */
  function Distance(tri: Triangle, r: Ray): real
    requires !Parallel(tri, r)
  {
    Quotient(Dot(Edge2(tri), Cross(Sub(r.origin, tri.p1), Edge1(tri))), Determinant(tri, r))
  }

  /** The point `p1 + u edge1 + v edge2` of the triangle's plane. */
  function TrianglePoint(tri: Triangle, u: real, v: real): Vec3 {
    Add(tri.p1, Add(MulScalar(Edge1(tri), u), MulScalar(Edge2(tri), v)))
  }

  /** The stored normal, flipped to face the incoming ray: it is negated when
      `d . normal >= 0`, so the result never points along the ray. */
  function FacingNormal(tri: Triangle, r: Ray): (n: Vec3)
    ensures Dot(r.direction, n) <= 0.0
    ensures n == tri.normal || n == ScalarMul(-1.0, tri.normal)
    ensures Dot(r.direction, tri.normal) < 0.0 ==> n == tri.normal
  {
    if Dot(r.direction, tri.normal) >= 0.0 then
      DotScaled(tri.normal, r.direction, -1.0);
      DotSymmetric(tri.normal, r.direction);
      DotSymmetric(ScalarMul(-1.0, tri.normal), r.direction);
      ScalarMul(-1.0, tri.normal)
    else
      tri.normal
  }

  /** `Triangle::hit`.  A hit is reported exactly when the ray is not
      parallel, the barycentric coordinates lie in the triangle
      (`0 <= u <= 1`, `v >= 0`, `u + v <= 1`) and the parameter is beyond
      `EPSILON` and strictly inside the window; it is at
      `origin + t d`, with the facing normal and the triangle's material. */
  function TriangleHit(tri: Triangle, tmin: real, tmax: real, r: Ray): (h: Option<Hit>)
    ensures Parallel(tri, r) ==> h.None?
    ensures h.Some? <==>
              !Parallel(tri, r) &&
              0.0 <= BaryU(tri, r) <= 1.0 && 0.0 <= BaryV(tri, r) && BaryU(tri, r) + BaryV(tri, r) <= 1.0 &&
              Epsilon < Distance(tri, r) && tmin < Distance(tri, r) < tmax
    ensures h.Some? ==> h.value.t == Distance(tri, r) && h.value.p == PointAt(r, h.value.t)
    ensures h.Some? ==> h.value.normal == FacingNormal(tri, r) && h.value.material == tri.material
  {
    var a := Determinant(tri, r);
    if a > -Epsilon && a < Epsilon then
      None
    else
      var u := BaryU(tri, r);
      if u < 0.0 || u > 1.0 then
        None
      else
        var v := BaryV(tri, r);
        if v < 0.0 || u + v > 1.0 then
          None
        else
          var t := Distance(tri, r);
          if t > Epsilon && t < tmax && t > tmin then
            Some(Hit(t, PointAt(r, t), FacingNormal(tri, r), tri.material))
          else
            None
  }

  /** A reported hit is a point of the triangle: the ray reaches, at the
      reported parameter, the point with the reported barycentric
      coordinates, which are non-negative with sum at most 1. */
  lemma TriangleHitOnTriangle(tri: Triangle, tmin: real, tmax: real, r: Ray)
    requires TriangleHit(tri, tmin, tmax, r).Some?
    ensures 0.0 <= BaryU(tri, r) && 0.0 <= BaryV(tri, r) && BaryU(tri, r) + BaryV(tri, r) <= 1.0
    ensures TriangleHit(tri, tmin, tmax, r).value.p == TrianglePoint(tri, BaryU(tri, r), BaryV(tri, r))
  {
    RayMeetsPlane(tri, r);
  }

  /** Cramer's rule for the source's `u`, `v` and `t`: whenever the ray is
      not parallel, `origin + t d = p1 + u edge1 + v edge2`. */
  lemma RayMeetsPlane(tri: Triangle, r: Ray)
    requires !Parallel(tri, r)
    ensures PointAt(r, Distance(tri, r)) == TrianglePoint(tri, BaryU(tri, r), BaryV(tri, r))
  {
    PlaneSolution(Sub(r.origin, tri.p1), r.direction, Edge1(tri), Edge2(tri), BaryU(tri, r), BaryV(tri, r), Distance(tri, r));
    PlanePoint(tri, r, Distance(tri, r), BaryU(tri, r), BaryV(tri, r));
  }

  /** The per-axis equations `s + t d = u edge1 + v edge2` say that the ray
      reaches `p1 + u edge1 + v edge2` at `t`. */
  lemma PlanePoint(tri: Triangle, r: Ray, t: real, u: real, v: real)
    requires Sub(r.origin, tri.p1).x + t * r.direction.x == u * Edge1(tri).x + v * Edge2(tri).x
    requires Sub(r.origin, tri.p1).y + t * r.direction.y == u * Edge1(tri).y + v * Edge2(tri).y
    requires Sub(r.origin, tri.p1).z + t * r.direction.z == u * Edge1(tri).z + v * Edge2(tri).z
    ensures PointAt(r, t) == TrianglePoint(tri, u, v)
  {
    assert PointAt(r, t).x == TrianglePoint(tri, u, v).x;
    assert PointAt(r, t).y == TrianglePoint(tri, u, v).y;
    assert PointAt(r, t).z == TrianglePoint(tri, u, v).z;
  }

  /** Cramer's rule on vectors: if `det = e1 . (d x e2)` is not zero and
      `u = (s . (d x e2)) / det`, `v = (d . (s x e1)) / det` and
      `t = (e2 . (s x e1)) / det`,
      then `s + t d = u e1 + v e2` on every axis. */
  lemma PlaneSolution(s: Vec3, d: Vec3, e1: Vec3, e2: Vec3, u: real, v: real, t: real)
    requires Dot(e1, Cross(d, e2)) != 0.0
    requires u == Quotient(Dot(s, Cross(d, e2)), Dot(e1, Cross(d, e2)))
    requires v == Quotient(Dot(d, Cross(s, e1)), Dot(e1, Cross(d, e2)))
    requires t == Quotient(Dot(e2, Cross(s, e1)), Dot(e1, Cross(d, e2)))
    ensures s.x + t * d.x == u * e1.x + v * e2.x
    ensures s.y + t * d.y == u * e1.y + v * e2.y
    ensures s.z + t * d.z == u * e1.z + v * e2.z
  {
    TripleProduct(e1, d, e2);
    TripleProduct(s, d, e2);
    TripleProduct(d, s, e1);
    TripleProduct(e2, s, e1);
    CramerRule(s.x, s.y, s.z, d.x, d.y, d.z, e1.x, e1.y, e1.z, e2.x, e2.y, e2.z,
               Dot(e1, Cross(d, e2)), Dot(s, Cross(d, e2)), Dot(d, Cross(s, e1)), Dot(e2, Cross(s, e1)), u, v, t);
  }

  /** The triple product `a . (b x c)` on components. */
  lemma TripleProduct(a: Vec3, b: Vec3, c: Vec3)
    ensures Dot(a, Cross(b, c)) == a.x * (b.y * c.z - b.z * c.y) + a.y * (-(b.x * c.z - b.z * c.x))
                                   + a.z * (b.x * c.y - b.y * c.x)
  {
  }

  /** Cramer's rule on components. */
  lemma CramerRule(sx: real, sy: real, sz: real, dx: real, dy: real, dz: real,
                   ax: real, ay: real, az: real, ex: real, ey: real, ez: real,
                   det: real, un: real, vn: real, tn: real, u: real, v: real, t: real)
    requires det == ax * (dy * ez - dz * ey) + ay * (-(dx * ez - dz * ex)) + az * (dx * ey - dy * ex)
    requires un == sx * (dy * ez - dz * ey) + sy * (-(dx * ez - dz * ex)) + sz * (dx * ey - dy * ex)
    requires vn == dx * (sy * az - sz * ay) + dy * (-(sx * az - sz * ax)) + dz * (sx * ay - sy * ax)
    requires tn == ex * (sy * az - sz * ay) + ey * (-(sx * az - sz * ax)) + ez * (sx * ay - sy * ax)
    requires det != 0.0 && u == Quotient(un, det) && v == Quotient(vn, det) && t == Quotient(tn, det)
    ensures sx + t * dx == u * ax + v * ex
    ensures sy + t * dy == u * ay + v * ey
    ensures sz + t * dz == u * az + v * ez
  {
    CramerIdentity(sx, sy, sz, dx, dy, dz, ax, ay, az, ex, ey, ez, det, un, vn, tn);
    CramerSolve(det, un, vn, tn, u, v, t, sx, dx, ax, ex);
    CramerSolve(det, un, vn, tn, u, v, t, sy, dy, ay, ey);
    CramerSolve(det, un, vn, tn, u, v, t, sz, dz, az, ez);
  }

  /** `det(e1, d, e2) s + det(e2, s, e1) d = det(s, d, e2) e1 + det(d, s, e1) e2`. */
  lemma CramerIdentity(sx: real, sy: real, sz: real, dx: real, dy: real, dz: real,
                       ax: real, ay: real, az: real, ex: real, ey: real, ez: real,
                       det: real, un: real, vn: real, tn: real)
    requires det == ax * (dy * ez - dz * ey) + ay * (-(dx * ez - dz * ex)) + az * (dx * ey - dy * ex)
    requires un == sx * (dy * ez - dz * ey) + sy * (-(dx * ez - dz * ex)) + sz * (dx * ey - dy * ex)
    requires vn == dx * (sy * az - sz * ay) + dy * (-(sx * az - sz * ax)) + dz * (sx * ay - sy * ax)
    requires tn == ex * (sy * az - sz * ay) + ey * (-(sx * az - sz * ax)) + ez * (sx * ay - sy * ax)
    ensures det * sx + tn * dx == un * ax + vn * ex
    ensures det * sy + tn * dy == un * ay + vn * ey
    ensures det * sz + tn * dz == un * az + vn * ez
  {
  }

  /** Dividing one axis of the identity by the determinant. */
  lemma CramerSolve(det: real, un: real, vn: real, tn: real, u: real, v: real, t: real,
                    s: real, d: real, e1: real, e2: real)
    requires det != 0.0 && det * u == un && det * v == vn && det * t == tn
    requires det * s + tn * d == un * e1 + vn * e2
    ensures s + t * d == u * e1 + v * e2
  {
    assert det * (s + t * d) == det * (u * e1 + v * e2);
    Cancel(det, s + t * d, u * e1 + v * e2);
  }

  /** A ray whose determinant is within `EPSILON` of zero never hits. */
  lemma ParallelMisses(tri: Triangle, tmin: real, tmax: real, r: Ray)
    requires -Epsilon < Determinant(tri, r) < Epsilon
    ensures TriangleHit(tri, tmin, tmax, r).None?
  {
  }

  /** `Triangle::bounding_box`: the vertices' extent on each axis, widened
      by `delta` on both sides.  Each face lies exactly `delta` beyond the
      extreme vertex coordinate on its axis: it is `delta` beyond one of the
      vertices and at least `delta` beyond all of them. */
  function TriangleBox(tri: Triangle): (b: AABB)
    ensures StrictlyInside(b, tri.p1) && StrictlyInside(b, tri.p2) && StrictlyInside(b, tri.p3)
    ensures b.min.x < b.max.x && b.min.y < b.max.y && b.min.z < b.max.z
    ensures b.min.x + Delta in {tri.p1.x, tri.p2.x, tri.p3.x} && b.max.x - Delta in {tri.p1.x, tri.p2.x, tri.p3.x}
    ensures b.min.y + Delta in {tri.p1.y, tri.p2.y, tri.p3.y} && b.max.y - Delta in {tri.p1.y, tri.p2.y, tri.p3.y}
    ensures b.min.z + Delta in {tri.p1.z, tri.p2.z, tri.p3.z} && b.max.z - Delta in {tri.p1.z, tri.p2.z, tri.p3.z}
    ensures b.min.x + Delta <= tri.p1.x && b.min.x + Delta <= tri.p2.x && b.min.x + Delta <= tri.p3.x
    ensures b.min.y + Delta <= tri.p1.y && b.min.y + Delta <= tri.p2.y && b.min.y + Delta <= tri.p3.y
    ensures b.min.z + Delta <= tri.p1.z && b.min.z + Delta <= tri.p2.z && b.min.z + Delta <= tri.p3.z
    ensures tri.p1.x <= b.max.x - Delta && tri.p2.x <= b.max.x - Delta && tri.p3.x <= b.max.x - Delta
    ensures tri.p1.y <= b.max.y - Delta && tri.p2.y <= b.max.y - Delta && tri.p3.y <= b.max.y - Delta
    ensures tri.p1.z <= b.max.z - Delta && tri.p2.z <= b.max.z - Delta && tri.p3.z <= b.max.z - Delta
  {
    var maxX := Max(tri.p1.x, Max(tri.p2.x, tri.p3.x));
    var maxY := Max(tri.p1.y, Max(tri.p2.y, tri.p3.y));
    var maxZ := Max(tri.p1.z, Max(tri.p2.z, tri.p3.z));
    var minX := Min(tri.p1.x, Min(tri.p2.x, tri.p3.x));
    var minY := Min(tri.p1.y, Min(tri.p2.y, tri.p3.y));
    var minZ := Min(tri.p1.z, Min(tri.p2.z, tri.p3.z));
    AABB(Vec3(minX - Delta, minY - Delta, minZ - Delta), Vec3(maxX + Delta, maxY + Delta, maxZ + Delta))
  }
  /** A reported hit lies strictly inside the triangle's bounding box: it
      is a point of the triangle, and the box holds every vertex strictly
      inside. */
  lemma TriangleHitInBox(tri: Triangle, tmin: real, tmax: real, r: Ray)
    requires TriangleHit(tri, tmin, tmax, r).Some?
    ensures StrictlyInside(TriangleBox(tri), TriangleHit(tri, tmin, tmax, r).value.p)
  {
    TriangleHitOnTriangle(tri, tmin, tmax, r);
    InsideTriangleBox(tri, BaryU(tri, r), BaryV(tri, r));
  }

  /** Every point of the triangle is strictly inside its bounding box. */
  lemma InsideTriangleBox(tri: Triangle, u: real, v: real)
    requires 0.0 <= u && 0.0 <= v && u + v <= 1.0
    ensures StrictlyInside(TriangleBox(tri), TrianglePoint(tri, u, v))
  {
    InsideBoxX(TriangleBox(tri), tri, u, v);
    InsideBoxY(TriangleBox(tri), tri, u, v);
    InsideBoxZ(TriangleBox(tri), tri, u, v);
  }

  lemma InsideBoxX(b: AABB, tri: Triangle, u: real, v: real)
    requires 0.0 <= u && 0.0 <= v && u + v <= 1.0
    requires b.min.x < tri.p1.x < b.max.x && b.min.x < tri.p2.x < b.max.x && b.min.x < tri.p3.x < b.max.x
    ensures b.min.x < TrianglePoint(tri, u, v).x < b.max.x
  {
    ConvexComponent(tri.p1.x, tri.p2.x, tri.p3.x, u, v, b.min.x, b.max.x);
  }

  lemma InsideBoxY(b: AABB, tri: Triangle, u: real, v: real)
    requires 0.0 <= u && 0.0 <= v && u + v <= 1.0
    requires b.min.y < tri.p1.y < b.max.y && b.min.y < tri.p2.y < b.max.y && b.min.y < tri.p3.y < b.max.y
    ensures b.min.y < TrianglePoint(tri, u, v).y < b.max.y
  {
    ConvexComponent(tri.p1.y, tri.p2.y, tri.p3.y, u, v, b.min.y, b.max.y);
  }

  lemma InsideBoxZ(b: AABB, tri: Triangle, u: real, v: real)
    requires 0.0 <= u && 0.0 <= v && u + v <= 1.0
    requires b.min.z < tri.p1.z < b.max.z && b.min.z < tri.p2.z < b.max.z && b.min.z < tri.p3.z < b.max.z
    ensures b.min.z < TrianglePoint(tri, u, v).z < b.max.z
  {
    ConvexComponent(tri.p1.z, tri.p2.z, tri.p3.z, u, v, b.min.z, b.max.z);
  }

  /** On one axis: a convex combination of three coordinates strictly
      inside `(lo, hi)` is strictly inside it. */
  lemma ConvexComponent(a: real, b: real, c: real, u: real, v: real, lo: real, hi: real)
    requires lo < a < hi && lo < b < hi && lo < c < hi
    requires 0.0 <= u && 0.0 <= v && u + v <= 1.0
    ensures lo < a + ((b - a) * u + (c - a) * v) < hi
  {
    Weighted(a, b, c, 1.0 - u - v, u, v, lo, hi);
    assert a + ((b - a) * u + (c - a) * v) == (1.0 - u - v) * a + u * b + v * c;
  }

  /** The weighted mean of three values strictly inside `(lo, hi)`, with
      non-negative weights summing to 1, is strictly inside it. */
  lemma Weighted(a: real, b: real, c: real, w: real, u: real, v: real, lo: real, hi: real)
    requires lo < a < hi && lo < b < hi && lo < c < hi
    requires 0.0 <= w && 0.0 <= u && 0.0 <= v && w + u + v == 1.0
    ensures lo < w * a + u * b + v * c < hi
  {
    WeightedStrict(lo, a, w);
    WeightedStrict(lo, b, u);
    WeightedStrict(lo, c, v);
    WeightedStrict(a, hi, w);
    WeightedStrict(b, hi, u);
    WeightedStrict(c, hi, v);
    assert w * lo + u * lo + v * lo == lo;
    assert w * hi + u * hi + v * hi == hi;
    assert 0.0 < w || 0.0 < u || 0.0 < v;
    SumStrict(w * lo, u * lo, v * lo, w * a, u * b, v * c);
    SumStrict(w * a, u * b, v * c, w * hi, u * hi, v * hi);
  }

  /** Adding three bounds, one of them strict. */
  lemma SumStrict(x1: real, x2: real, x3: real, y1: real, y2: real, y3: real)
    requires x1 <= y1 && x2 <= y2 && x3 <= y3 && (x1 < y1 || x2 < y2 || x3 < y3)
    ensures x1 + x2 + x3 < y1 + y2 + y3
  {
  }

  /** A non-negative weight keeps an order, a positive one keeps it strict. */
  lemma WeightedStrict(x: real, y: real, w: real)
    requires x < y && 0.0 <= w
    ensures w * x <= w * y
    ensures 0.0 < w ==> w * x < w * y
  {
    if 0.0 < w {
      ProductPositive(y - x, w);
    }
  }
}
