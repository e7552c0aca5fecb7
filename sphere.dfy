/** Ray-sphere intersection (src/sphere.rs).

    With `oc = origin - center` the ray meets the sphere where
    `a t^2 + 2 b t + c = 0` for `a = d . d`, `b = oc . d` and
    `c = oc . oc - radius^2`.  The source reports nothing unless the reduced
    discriminant `b^2 - a c` is positive, then tries the nearer root
    `(-b - sqrt(disc)) / a` and only after it the farther one
    `(-b + sqrt(disc)) / a`, each against the open window `(t_min, t_max)`.
    The square root is the parameter `sqrt`.  The source gives a sphere no
    bounding box; neither does the model. */
module SphereGeometry {
  import opened Vectors
  import opened Rays
  import opened Materials

  datatype Sphere = Sphere(center: Vec3, radius: real, material: Material)

  /** The coefficients `a`, `b`, `c` of the source. */
  datatype Quadratic = Quadratic(a: real, b: real, c: real)

  function Coefficients(s: Sphere, r: Ray): Quadratic {
    var oc := Sub(r.origin, s.center);
    Quadratic(Dot(r.direction, r.direction), Dot(oc, r.direction), Dot(oc, oc) - s.radius * s.radius)
  }

  /** The value of `a t^2 + 2 b t + c` at `t`. */
  function Eval(q: Quadratic, t: real): real {
    q.a * t * t + 2.0 * q.b * t + q.c
  }

  /** The reduced discriminant `b^2 - a c`. */
  function Discriminant(q: Quadratic): real {
    q.b * q.b - q.a * q.c
  }

  /** The root the source tries first, `(-b - sqrt(disc)) / a`. */
  function NearRoot(q: Quadratic, sqrt: real -> real): real
    requires q.a != 0.0
  {
    (-q.b - sqrt(Discriminant(q))) / q.a
  }

  /** The root the source tries second, `(-b + sqrt(disc)) / a`. */
  function FarRoot(q: Quadratic, sqrt: real -> real): real
    requires q.a != 0.0
  {
    (-q.b + sqrt(Discriminant(q))) / q.a
  }

  // ---------------------------------------------------------------------
  // The quadratic on its own

  lemma ZeroCoefficients(q: Quadratic)
    requires q.a == 0.0 && q.b == 0.0
    ensures Discriminant(q) == 0.0
  {
  }

  /** Both roots solve the quadratic. */
  lemma QuadraticAtRoot(q: Quadratic, sqrt: real -> real, t: real)
    requires IsSqrt(sqrt) && q.a != 0.0 && 0.0 <= Discriminant(q)
    requires t == NearRoot(q, sqrt) || t == FarRoot(q, sqrt)
    ensures Eval(q, t) == 0.0
  {
    assert sqrt(Discriminant(q)) * sqrt(Discriminant(q)) == Discriminant(q);
    RootIdentity(q.a, q.b, q.c, sqrt(Discriminant(q)), t);
  }

  lemma RootIdentity(a: real, b: real, c: real, s: real, t: real)
    requires a != 0.0 && s * s == b * b - a * c
    requires t == (-b - s) / a || t == (-b + s) / a
    ensures a * t * t + 2.0 * b * t + c == 0.0
  {
    var u := a * t;
    assert u == -b - s || u == -b + s;
    assert (u + b) * (u + b) == s * s;
    assert a * (a * t * t + 2.0 * b * t + c) == u * u + 2.0 * b * u + a * c;
    ProductZero(a, a * t * t + 2.0 * b * t + c);
  }

  /** And they are its only solutions. */
  lemma OnlyRoots(q: Quadratic, sqrt: real -> real, t: real)
    requires IsSqrt(sqrt) && q.a > 0.0 && 0.0 <= Discriminant(q) && Eval(q, t) == 0.0
    ensures t == NearRoot(q, sqrt) || t == FarRoot(q, sqrt)
  {
    assert 0.0 <= sqrt(Discriminant(q)) && sqrt(Discriminant(q)) * sqrt(Discriminant(q)) == Discriminant(q);
    OnlyRootsIdentity(q.a, q.b, q.c, sqrt(Discriminant(q)), t);
  }

  lemma OnlyRootsIdentity(a: real, b: real, c: real, s: real, t: real)
    requires a > 0.0 && 0.0 <= s && s * s == b * b - a * c
    requires a * t * t + 2.0 * b * t + c == 0.0
    ensures t == (-b - s) / a || t == (-b + s) / a
  {
    var u := a * t;
    assert (u + b) * (u + b) == a * (a * t * t + 2.0 * b * t) + b * b;
    assert (u + b - s) * (u + b + s) == 0.0;
    ProductZero(u + b - s, u + b + s);
  }

  /** With `a > 0` the root tried first is never beyond the other. */
  lemma NearRootFirst(q: Quadratic, sqrt: real -> real)
    requires IsSqrt(sqrt) && q.a > 0.0 && 0.0 <= Discriminant(q)
    ensures NearRoot(q, sqrt) <= FarRoot(q, sqrt)
  {
    assert 0.0 <= sqrt(Discriminant(q));
    DivMonotone(-q.b - sqrt(Discriminant(q)), -q.b + sqrt(Discriminant(q)), q.a);
  }

  // ---------------------------------------------------------------------
  // The quadratic of a sphere and a ray

  /** A zero direction leaves a zero discriminant. */
  lemma FlatRayDiscriminant(s: Sphere, r: Ray)
    ensures r.direction == Zero ==> Discriminant(Coefficients(s, r)) == 0.0
  {
    if r.direction == Zero {
      DotWithZero(r.direction, r.direction);
      DotWithZero(Sub(r.origin, s.center), r.direction);
      ZeroCoefficients(Coefficients(s, r));
    }
  }

  /** A zero radius leaves no positive discriminant, by Cauchy-Schwarz. */
  lemma PointSphereDiscriminant(s: Sphere, r: Ray)
    ensures s.radius == 0.0 ==> Discriminant(Coefficients(s, r)) <= 0.0
  {
    if s.radius == 0.0 {
      assert Coefficients(s, r).a == r.direction.x * r.direction.x + r.direction.y * r.direction.y
                                     + r.direction.z * r.direction.z;
      assert Coefficients(s, r).b == Sub(r.origin, s.center).x * r.direction.x + Sub(r.origin, s.center).y * r.direction.y
                                     + Sub(r.origin, s.center).z * r.direction.z;
      assert Coefficients(s, r).c == Sub(r.origin, s.center).x * Sub(r.origin, s.center).x
                                     + Sub(r.origin, s.center).y * Sub(r.origin, s.center).y
                                     + Sub(r.origin, s.center).z * Sub(r.origin, s.center).z;
      CauchySchwarzComponents(Sub(r.origin, s.center).x, Sub(r.origin, s.center).y, Sub(r.origin, s.center).z,
                              r.direction.x, r.direction.y, r.direction.z,
                              Coefficients(s, r).c, Coefficients(s, r).a, Coefficients(s, r).b);
      assert Discriminant(Coefficients(s, r)) == Coefficients(s, r).b * Coefficients(s, r).b
                                                 - Coefficients(s, r).a * Coefficients(s, r).c;
    }
  }

  /** A positive discriminant needs a non-zero direction and a non-zero
      radius, so the divisions of `Sphere::hit` are defined whenever they
      are reached. */
  lemma PositiveDiscriminant(s: Sphere, r: Ray)
    requires Discriminant(Coefficients(s, r)) > 0.0
    ensures Coefficients(s, r).a > 0.0 && r.direction != Zero
    ensures s.radius != 0.0
  {
    FlatRayDiscriminant(s, r);
    PointSphereDiscriminant(s, r);
    SquaredLengthFacts(r.direction);
  }

  /** How far the point at parameter `t` is from the sphere, in the
      coefficients of the source: `|p(t) - center|^2 - radius^2 = a t^2 + 2 b t + c`. */
  lemma SphereEquation(s: Sphere, r: Ray, t: real)
    ensures SquaredLength(Sub(PointAt(r, t), s.center)) - s.radius * s.radius == Eval(Coefficients(s, r), t)
  {
    SphereComponents(s, r, t);
    assert SquaredLength(Sub(PointAt(r, t), s.center))
        == Sub(PointAt(r, t), s.center).x * Sub(PointAt(r, t), s.center).x
         + Sub(PointAt(r, t), s.center).y * Sub(PointAt(r, t), s.center).y
         + Sub(PointAt(r, t), s.center).z * Sub(PointAt(r, t), s.center).z;
    assert Eval(Coefficients(s, r), t)
        == Coefficients(s, r).a * t * t + 2.0 * Coefficients(s, r).b * t + Coefficients(s, r).c;
  }

  lemma SphereComponents(s: Sphere, r: Ray, t: real)
    ensures Sub(PointAt(r, t), s.center).x * Sub(PointAt(r, t), s.center).x
          + Sub(PointAt(r, t), s.center).y * Sub(PointAt(r, t), s.center).y
          + Sub(PointAt(r, t), s.center).z * Sub(PointAt(r, t), s.center).z - s.radius * s.radius
         == Coefficients(s, r).a * t * t + 2.0 * Coefficients(s, r).b * t + Coefficients(s, r).c
  {
    SphereIdentity(Sub(PointAt(r, t), s.center).x, Sub(PointAt(r, t), s.center).y, Sub(PointAt(r, t), s.center).z,
                   Sub(r.origin, s.center).x, Sub(r.origin, s.center).y, Sub(r.origin, s.center).z,
                   r.direction.x, r.direction.y, r.direction.z, t,
                   Coefficients(s, r).a, Coefficients(s, r).b, Coefficients(s, r).c, s.radius);
  }

  lemma SphereIdentity(wx: real, wy: real, wz: real, ox: real, oy: real, oz: real,
                       dx: real, dy: real, dz: real, t: real, a: real, b: real, c: real, radius: real)
    requires wx == ox + dx * t && wy == oy + dy * t && wz == oz + dz * t
    requires a == dx * dx + dy * dy + dz * dz
    requires b == ox * dx + oy * dy + oz * dz
    requires c == ox * ox + oy * oy + oz * oz - radius * radius
    ensures wx * wx + wy * wy + wz * wz - radius * radius == a * t * t + 2.0 * b * t + c
  {
  }

  /** Either root lies on the sphere. */
  lemma RootOnSphere(s: Sphere, r: Ray, sqrt: real -> real, t: real)
    requires IsSqrt(sqrt) && Discriminant(Coefficients(s, r)) > 0.0
    requires Coefficients(s, r).a != 0.0
    requires t == NearRoot(Coefficients(s, r), sqrt) || t == FarRoot(Coefficients(s, r), sqrt)
    ensures SquaredLength(Sub(PointAt(r, t), s.center)) == s.radius * s.radius
  {
    QuadraticAtRoot(Coefficients(s, r), sqrt, t);
    SphereEquation(s, r, t);
  }

  /** `(p - center) / radius` is a unit vector for a point on the sphere. */
  lemma NormalIsUnit(s: Sphere, p: Vec3, normal: Vec3)
    requires s.radius != 0.0 && SquaredLength(Sub(p, s.center)) == s.radius * s.radius
    requires MulScalar(normal, s.radius) == Sub(p, s.center)
    ensures SquaredLength(normal) == 1.0
  {
    SquaredLengthScaled(normal, s.radius);
    ScaledUnit(s.radius, SquaredLength(normal), SquaredLength(Sub(p, s.center)));
  }
}

/** `Sphere::hit` itself, over the geometry above. */
module Spheres {
  import opened Options
  import opened Vectors
  import opened Rays
  import opened Materials
  import opened Hits
  import opened SphereGeometry

  /** The hit record at parameter `t`: the point `point_at_parameter(t)`,
      the normal `(p - center) / radius` and the sphere's material. */
  function HitAt(s: Sphere, r: Ray, t: real): (h: Hit)
    requires s.radius != 0.0
    ensures h.t == t && h.p == PointAt(r, t) && h.material == s.material
    ensures MulScalar(h.normal, s.radius) == Sub(h.p, s.center)
  {
    var p := PointAt(r, t);
    Hit(t, p, DivScalar(Sub(p, s.center), s.radius), s.material)
  }

  /** `Sphere::hit`. */
  function SphereHit(s: Sphere, tmin: real, tmax: real, r: Ray, sqrt: real -> real): (h: Option<Hit>)
    requires IsSqrt(sqrt)
    ensures Discriminant(Coefficients(s, r)) <= 0.0 ==> h.None?
    ensures h.Some? ==> tmin < h.value.t < tmax
    ensures h.Some? ==> Discriminant(Coefficients(s, r)) > 0.0 && s.radius != 0.0 && r.direction != Zero
    ensures h.Some? ==> h.value == HitAt(s, r, h.value.t)
    ensures Discriminant(Coefficients(s, r)) > 0.0 ==> Coefficients(s, r).a > 0.0
    ensures h.Some? ==> h.value.t == NearRoot(Coefficients(s, r), sqrt) || h.value.t == FarRoot(Coefficients(s, r), sqrt)
    ensures Discriminant(Coefficients(s, r)) > 0.0 && tmin < NearRoot(Coefficients(s, r), sqrt) < tmax ==>
              h.Some? && h.value.t == NearRoot(Coefficients(s, r), sqrt)
    ensures h.Some? && h.value.t != NearRoot(Coefficients(s, r), sqrt) ==> !(tmin < NearRoot(Coefficients(s, r), sqrt) < tmax)
  {
    var q := Coefficients(s, r);
    var discriminant := Discriminant(q);
    if discriminant > 0.0 then
      PositiveDiscriminant(s, r);
      var temp := NearRoot(q, sqrt);
      if temp < tmax && temp > tmin then
        Some(HitAt(s, r, temp))
      else
        var temp := FarRoot(q, sqrt);
        if temp < tmax && temp > tmin then
          Some(HitAt(s, r, temp))
        else
          None
    else
      None
  }

  /** A reported hit lies on the sphere, and its normal is a unit vector. */
  lemma SphereHitOnSurface(s: Sphere, tmin: real, tmax: real, r: Ray, sqrt: real -> real)
    requires IsSqrt(sqrt) && SphereHit(s, tmin, tmax, r, sqrt).Some?
    ensures var h := SphereHit(s, tmin, tmax, r, sqrt).value;
            SquaredLength(Sub(h.p, s.center)) == s.radius * s.radius && SquaredLength(h.normal) == 1.0
  {
    PositiveDiscriminant(s, r);
    RootOnSphere(s, r, sqrt, SphereHit(s, tmin, tmax, r, sqrt).value.t);
    NormalIsUnit(s, SphereHit(s, tmin, tmax, r, sqrt).value.p, SphereHit(s, tmin, tmax, r, sqrt).value.normal);
  }

  /** The source finds the nearest crossing in the window: if the ray meets
      the sphere at some `t` in `(t_min, t_max)` and the discriminant is
      positive (the ray is not tangent), a hit is reported, at a parameter
      no larger than `t`. */
  lemma SphereHitNearest(s: Sphere, tmin: real, tmax: real, r: Ray, sqrt: real -> real, t: real)
    requires IsSqrt(sqrt) && Discriminant(Coefficients(s, r)) > 0.0
    requires tmin < t < tmax && SquaredLength(Sub(PointAt(r, t), s.center)) == s.radius * s.radius
    ensures SphereHit(s, tmin, tmax, r, sqrt).Some?
    ensures SphereHit(s, tmin, tmax, r, sqrt).value.t <= t
  {
    PositiveDiscriminant(s, r);
    SphereEquation(s, r, t);
    OnlyRoots(Coefficients(s, r), sqrt, t);
    NearRootFirst(Coefficients(s, r), sqrt);
  }
}
