/** Materials (src/material.rs): how a surface scatters an incoming ray and
    what it emits.  The five materials of the source are the variants of one
    closed datatype.

    The random draws of the source are parameters: `sample` is the point
    `random_in_unit_sphere` produced for this call, and `choice` is the
    uniform draw Dielectric compares with the reflection probability.  The
    texture lookups need the sine function (`sin`) and the unit vectors need
    the square root (`sqrt`); both are parameters too. */
module Materials {
  import opened Options
  import opened Vectors
  import opened Rays
  import opened Textures

  datatype Material =
    | Lambertian(albedo: Texture)
    | Metal(albedo: Texture, fuzz: real)
    | Dielectric(refIdx: real)
    | Isotropic(albedo: Texture)
    | DiffuseLight(emit: Texture)

  datatype ScatterRecord = ScatterRecord(attenuation: Vec3, scattered: Ray)

  datatype RefractRecord = RefractRecord(shouldRefract: bool, refracted: Vec3)

  const White: Vec3 := Vec3(1.0, 1.0, 1.0)

  // ---------------------------------------------------------------------
  // random_in_unit_sphere

  /** The candidate point `2 d - (1, 1, 1)` built from one triple of draws. */
  function Candidate(d: Vec3): Vec3 {
    Sub(ScalarMul(2.0, d), White)
  }

  /** Draws in `[0, 1)` give a candidate in the cube `[-1, 1)^3`. */
  lemma CandidateInCube(d: Vec3)
    requires 0.0 <= d.x < 1.0 && 0.0 <= d.y < 1.0 && 0.0 <= d.z < 1.0
    ensures var p := Candidate(d);
            -1.0 <= p.x < 1.0 && -1.0 <= p.y < 1.0 && -1.0 <= p.z < 1.0
  {
  }

  /** `random_in_unit_sphere`: rejection sampling.  The source loops until a
      candidate falls strictly inside the unit sphere; here the draws are a
      finite sequence of triples, and the loop returns the first accepted
      candidate with its index, or `None` once the draws run out. */
  method RandomInUnitSphere(draws: seq<Vec3>) returns (p: Option<Vec3>, used: nat)
    ensures p.Some? ==> used < |draws| && p.value == Candidate(draws[used])
    ensures p.Some? ==> SquaredLength(p.value) < 1.0
    ensures p.Some? ==> forall j :: 0 <= j < used ==> 1.0 <= SquaredLength(Candidate(draws[j]))
    ensures p.None? ==> forall j :: 0 <= j < |draws| ==> 1.0 <= SquaredLength(Candidate(draws[j]))
  {
    var i := 0;
    while i < |draws|
      invariant 0 <= i <= |draws|
      invariant forall j :: 0 <= j < i ==> 1.0 <= SquaredLength(Candidate(draws[j]))
    {
      var candidate := Candidate(draws[i]);
      if SquaredLength(candidate) < 1.0 {
        return Some(candidate), i;
      }
      i := i + 1;
    }
    return None, i;
  }

  // ---------------------------------------------------------------------
  // reflect

  /** `reflect(v, n) = v - 2 (v . n) n`. */
  function Reflect(v: Vec3, n: Vec3): Vec3 {
    Sub(v, ScalarMul(2.0 * Dot(v, n), n))
  }

  /** About a unit normal, reflection negates the normal component. */
  lemma ReflectNormalComponent(v: Vec3, n: Vec3)
    requires SquaredLength(n) == 1.0
    ensures Dot(Reflect(v, n), n) == -Dot(v, n)
  {
    DotSubScaled(v, n, n, 2.0 * Dot(v, n));
  }

  /** Reflection keeps the tangential part: `reflect(v, n) x n == v x n`. */
  lemma ReflectKeepsTangent(v: Vec3, n: Vec3)
    ensures Cross(Reflect(v, n), n) == Cross(v, n)
  {
    CrossSubScaled(v, n, 2.0 * Dot(v, n));
  }

  /** About a unit normal, reflection keeps the length. */
  lemma ReflectKeepsLength(v: Vec3, n: Vec3)
    requires SquaredLength(n) == 1.0
    ensures SquaredLength(Reflect(v, n)) == SquaredLength(v)
  {
    var d := Dot(v, n);
    SquaredLengthSubScaled(v, n, 2.0 * d);
  }

  /** About a unit normal, reflecting twice gives the vector back. */
  lemma {:induction false} ReflectTwice(v: Vec3, n: Vec3)
    requires SquaredLength(n) == 1.0
    ensures Reflect(Reflect(v, n), n) == v
  {
    var d := Dot(v, n);
    var w := Reflect(v, n);
    ReflectNormalComponent(v, n);
    assert Dot(w, n) == -d;
    assert Reflect(w, n) == Sub(w, MulScalar(n, 2.0 * -d));
    UndoScaledSub(v, n, 2.0 * d);
  }

  lemma UndoScaledSub(v: Vec3, n: Vec3, k: real)
    ensures Sub(Sub(v, MulScalar(n, k)), MulScalar(n, -k)) == v
  {
  }

  // ---------------------------------------------------------------------
  // schlick

  function Pow5(x: real): real {
    x * x * x * x * x
  }

  /** Schlick's reflectance at normal incidence, `((1 - ri) / (1 + ri))^2`. */
  function R0(refIdx: real): real
    requires refIdx != -1.0
  {
    var q := (1.0 - refIdx) / (1.0 + refIdx);
    q * q
  }

  /** `schlick(cosine, ref_idx) = r0 + (1 - r0) (1 - cosine)^5`.  Head-on
      (cosine 1) it is `r0`; at grazing incidence (cosine 0) it is 1; for a
      non-negative index and a cosine in `[0, 1]` it is a probability no
      smaller than `r0`. */
  function Schlick(cosine: real, refIdx: real): (r: real)
    requires refIdx != -1.0
    ensures cosine == 1.0 ==> r == R0(refIdx)
    ensures cosine == 0.0 ==> r == 1.0
    ensures 0.0 <= refIdx && 0.0 <= cosine <= 1.0 ==> R0(refIdx) <= r <= 1.0
  {
    var r0 := R0(refIdx);
    var p := Pow5(1.0 - cosine);
    Pow5Facts(1.0 - cosine);
    R0Bounds(refIdx);
    Blend(r0, p);
    r0 + (1.0 - r0) * p
  }

  /** `r0 + (1 - r0) p` at the ends and inside of `[0, 1]`. */
  lemma Blend(r0: real, p: real)
    ensures p == 0.0 ==> r0 + (1.0 - r0) * p == r0
    ensures p == 1.0 ==> r0 + (1.0 - r0) * p == 1.0
    ensures 0.0 <= r0 <= 1.0 && 0.0 <= p <= 1.0 ==> r0 <= r0 + (1.0 - r0) * p <= 1.0
  {
    if 0.0 <= r0 <= 1.0 && 0.0 <= p <= 1.0 {
      var k := 1.0 - r0;
      UnitProduct(k, p);
      assert 0.0 <= k * p <= k;
    }
  }

  lemma Pow5Facts(x: real)
    ensures x == 0.0 ==> Pow5(x) == 0.0
    ensures x == 1.0 ==> Pow5(x) == 1.0
    ensures 0.0 <= x <= 1.0 ==> 0.0 <= Pow5(x) <= 1.0
  {
    if 0.0 <= x <= 1.0 {
      Pow5Bounds(x);
    }
  }

  /** For a non-negative index, `r0` lies in `[0, 1]`; equal indices reflect nothing. */
  lemma R0Bounds(refIdx: real)
    requires refIdx != -1.0
    ensures 0.0 <= refIdx ==> 0.0 <= R0(refIdx) <= 1.0
    ensures refIdx == 1.0 ==> R0(refIdx) == 0.0
  {
    if 0.0 <= refIdx {
      var q := (1.0 - refIdx) / (1.0 + refIdx);
      DivMonotone(1.0 - refIdx, 1.0 + refIdx, 1.0 + refIdx);
      DivMonotone(-(1.0 + refIdx), 1.0 - refIdx, 1.0 + refIdx);
      assert -1.0 <= q <= 1.0;
      SquarePositive(q);
      SquareAtMostOne(q);
    }
  }

  /** A product of two reals in `[0, 1]` lies in `[0, 1]` and below each factor. */
  lemma UnitProduct(a: real, b: real)
    requires 0.0 <= a <= 1.0 && 0.0 <= b <= 1.0
    ensures 0.0 <= a * b <= a && a * b <= 1.0
  {
    if 0.0 < a {
      MulMonotone(b, 1.0, a);
      MulMonotone(0.0, b, a);
    }
  }

  lemma SquareAtMostOne(q: real)
    requires -1.0 <= q <= 1.0
    ensures q * q <= 1.0
  {
    if 0.0 <= q {
      UnitProduct(q, q);
    } else {
      UnitProduct(-q, -q);
      assert (-q) * (-q) == q * q;
    }
  }

  lemma Pow5Bounds(x: real)
    requires 0.0 <= x <= 1.0
    ensures 0.0 <= Pow5(x) <= 1.0
  {
    UnitProduct(x, x);
    UnitProduct(x * x, x);
    UnitProduct(x * x * x, x);
    UnitProduct(x * x * x * x, x);
  }

  // ---------------------------------------------------------------------
  // refract

  /** `refract(v, n, ni_over_nt)`: with `uv` the unit vector of `v` and `dt =
      uv . n`, refraction is possible exactly when the discriminant
      `1 - ni_over_nt^2 (1 - dt^2)` is positive; the refracted direction is
      then `Bend(uv, n, ni_over_nt, sqrt(discriminant))`, and otherwise the
      zero vector is returned. */
  function Refract(v: Vec3, n: Vec3, niOverNt: real, sqrt: real -> real): (r: RefractRecord)
    requires IsSqrt(sqrt) && v != Zero
    ensures r.shouldRefract <==> 0.0 < RefractDiscriminant(Dot(Unit(v, sqrt), n), niOverNt)
    ensures !r.shouldRefract ==> r.refracted == Zero
  {
    var uv := Unit(v, sqrt);
    var dt := Dot(uv, n);
    var discriminant := RefractDiscriminant(dt, niOverNt);
    if discriminant > 0.0 then
      RefractRecord(true, Bend(uv, n, niOverNt, sqrt(discriminant)))
    else
      RefractRecord(false, Zero)
  }

  /** `1 - ni_over_nt^2 (1 - dt^2)`, the squared normal component of the refracted ray. */
  function RefractDiscriminant(dt: real, niOverNt: real): real {
    1.0 - niOverNt * niOverNt * (1.0 - dt * dt)
  }

  /** The part of `uv` orthogonal to a unit normal `n`: `uv - n (uv . n)`. */
  function Tangential(uv: Vec3, n: Vec3): Vec3 {
    Sub(uv, MulScalar(n, Dot(uv, n)))
  }

  /** The refracted direction of `refract` for the unit vector `uv` and the
      normal component `s`: `ni_over_nt (uv - n (uv . n)) - n s`. */
  function Bend(uv: Vec3, n: Vec3, niOverNt: real, s: real): Vec3 {
    Sub(ScalarMul(niOverNt, Tangential(uv, n)), MulScalar(n, s))
  }

  /** Snell's law in vector form: the tangential part of the refracted
      direction is `ni_over_nt` times that of the incoming unit vector. */
  lemma RefractSnell(v: Vec3, n: Vec3, niOverNt: real, sqrt: real -> real)
    requires IsSqrt(sqrt) && v != Zero
    requires Refract(v, n, niOverNt, sqrt).shouldRefract
    ensures Cross(Refract(v, n, niOverNt, sqrt).refracted, n) == MulScalar(Cross(Unit(v, sqrt), n), niOverNt)
  {
    BendSnell(Unit(v, sqrt), n, niOverNt, sqrt(RefractDiscriminant(Dot(Unit(v, sqrt), n), niOverNt)));
  }

  lemma BendSnell(uv: Vec3, n: Vec3, niOverNt: real, s: real)
    ensures Cross(Bend(uv, n, niOverNt, s), n) == MulScalar(Cross(uv, n), niOverNt)
  {
    CrossSubScaled(MulScalar(Tangential(uv, n), niOverNt), n, s);
    CrossScaled(Tangential(uv, n), n, niOverNt);
    CrossSubScaled(uv, n, Dot(uv, n));
  }

  /** About a unit normal, when refraction happens the refracted direction
      is a unit vector and leaves on the other side of the surface:
      its normal component is `-sqrt(discriminant)`. */
  lemma RefractThroughSurface(v: Vec3, n: Vec3, niOverNt: real, sqrt: real -> real)
    requires IsSqrt(sqrt) && v != Zero && SquaredLength(n) == 1.0
    requires Refract(v, n, niOverNt, sqrt).shouldRefract
    ensures var r := Refract(v, n, niOverNt, sqrt).refracted;
            Dot(r, n) < 0.0 && SquaredLength(r) == 1.0
  {
    SqrtFacts(sqrt, RefractDiscriminant(Dot(Unit(v, sqrt), n), niOverNt));
    BendThroughSurface(Unit(v, sqrt), n, niOverNt, sqrt(RefractDiscriminant(Dot(Unit(v, sqrt), n), niOverNt)));
  }

  lemma BendThroughSurface(uv: Vec3, n: Vec3, niOverNt: real, s: real)
    requires SquaredLength(uv) == 1.0 && SquaredLength(n) == 1.0
    requires 0.0 < s && s * s == RefractDiscriminant(Dot(uv, n), niOverNt)
    ensures Dot(Bend(uv, n, niOverNt, s), n) == -s && SquaredLength(Bend(uv, n, niOverNt, s)) == 1.0
  {
    TangentialPart(uv, n);
    OffNormal(Tangential(uv, n), n, niOverNt, s);
    assert RefractDiscriminant(Dot(uv, n), niOverNt) == 1.0 - niOverNt * niOverNt * (1.0 - Dot(uv, n) * Dot(uv, n));
    BendIdentity(Dot(uv, n), SquaredLength(uv), niOverNt, s, SquaredLength(Tangential(uv, n)),
                 SquaredLength(Bend(uv, n, niOverNt, s)));
  }

  /** The tangential part is orthogonal to `n` and carries the rest of the length. */
  lemma TangentialPart(uv: Vec3, n: Vec3)
    requires SquaredLength(n) == 1.0
    ensures Dot(Tangential(uv, n), n) == 0.0
    ensures SquaredLength(Tangential(uv, n)) == SquaredLength(uv) - Dot(uv, n) * Dot(uv, n)
  {
    DotSubScaled(uv, n, n, Dot(uv, n));
    SquaredLengthSubScaled(uv, n, Dot(uv, n));
    TangentialIdentity(Dot(uv, n), SquaredLength(uv), SquaredLength(n), Dot(n, n),
                       Dot(Tangential(uv, n), n), SquaredLength(Tangential(uv, n)));
  }

  lemma TangentialIdentity(d: real, uu: real, nn: real, dn: real, wn: real, ww: real)
    requires nn == 1.0 && dn == nn
    requires wn == d - d * dn && ww == uu - 2.0 * d * d + d * d * nn
    ensures wn == 0.0 && ww == uu - d * d
  {
  }

  /** `k w - s n` for `w` orthogonal to a unit `n`: its normal component is
      `-s` and, by Pythagoras, its squared length `k^2 |w|^2 + s^2`. */
  lemma OffNormal(w: Vec3, n: Vec3, k: real, s: real)
    requires SquaredLength(n) == 1.0 && Dot(w, n) == 0.0
    ensures Dot(Sub(ScalarMul(k, w), MulScalar(n, s)), n) == -s
    ensures SquaredLength(Sub(ScalarMul(k, w), MulScalar(n, s))) == k * k * SquaredLength(w) + s * s
  {
    DotScaled(w, n, k);
    SquaredLengthScaled(w, k);
    DotSubScaled(MulScalar(w, k), n, n, s);
    SquaredLengthSubScaled(MulScalar(w, k), n, s);
    OffNormalIdentity(k, s, Dot(w, n), SquaredLength(w), SquaredLength(n), Dot(n, n),
                      Dot(MulScalar(w, k), n), SquaredLength(MulScalar(w, k)),
                      Dot(Sub(MulScalar(w, k), MulScalar(n, s)), n),
                      SquaredLength(Sub(MulScalar(w, k), MulScalar(n, s))));
  }

  lemma OffNormalIdentity(k: real, s: real, wn: real, ww: real, nn: real, dn: real,
                          twn: real, tww: real, rn: real, rr: real)
    requires wn == 0.0 && nn == 1.0 && dn == nn
    requires twn == k * wn && tww == k * k * ww
    requires rn == twn - s * dn && rr == tww - 2.0 * s * twn + s * s * nn
    ensures rn == -s && rr == k * k * ww + s * s
  {
  }

  lemma BendIdentity(d: real, uu: real, k: real, s: real, ww: real, rr: real)
    requires uu == 1.0 && ww == uu - d * d && rr == k * k * ww + s * s
    requires s * s == 1.0 - k * k * (1.0 - d * d)
    ensures rr == 1.0
  {
  }

  /** Going into a denser medium (`ni_over_nt^2 < 1`) through a unit normal
      there is never total internal reflection. */
  lemma RefractIntoDenser(v: Vec3, n: Vec3, niOverNt: real, sqrt: real -> real)
    requires IsSqrt(sqrt) && v != Zero && SquaredLength(n) == 1.0
    requires niOverNt * niOverNt < 1.0
    ensures Refract(v, n, niOverNt, sqrt).shouldRefract
  {
    DenserDiscriminant(Unit(v, sqrt), n, niOverNt);
  }

  lemma DenserDiscriminant(uv: Vec3, n: Vec3, niOverNt: real)
    requires SquaredLength(uv) == 1.0 && SquaredLength(n) == 1.0 && niOverNt * niOverNt < 1.0
    ensures 0.0 < RefractDiscriminant(Dot(uv, n), niOverNt)
  {
    CauchySchwarz(uv, n);
    DenserIdentity(Dot(uv, n), SquaredLength(uv), SquaredLength(n), niOverNt);
    assert RefractDiscriminant(Dot(uv, n), niOverNt) == 1.0 - niOverNt * niOverNt * (1.0 - Dot(uv, n) * Dot(uv, n));
  }

  lemma DenserIdentity(dt: real, uu: real, nn: real, k: real)
    requires dt * dt <= uu * nn && uu == 1.0 && nn == 1.0 && k * k < 1.0
    ensures 1.0 - k * k * (1.0 - dt * dt) > 0.0
  {
    SquarePositive(dt);
    SquarePositive(k);
    UnitProduct(k * k, 1.0 - dt * dt);
  }

  /** With equal indices (`ni_over_nt == 1`) a ray arriving against the
      normal goes straight through: the refracted direction is the unit
      incoming direction. */
  lemma RefractMatchedIndices(v: Vec3, n: Vec3, sqrt: real -> real)
    requires IsSqrt(sqrt) && v != Zero && Dot(v, n) < 0.0
    ensures Refract(v, n, 1.0, sqrt).shouldRefract
    ensures Refract(v, n, 1.0, sqrt).refracted == Unit(v, sqrt)
  {
    UnitSign(v, n, sqrt);
    MatchedDiscriminant(Dot(Unit(v, sqrt), n));
    SqrtFacts(sqrt, RefractDiscriminant(Dot(Unit(v, sqrt), n), 1.0));
    SqrtUnique(sqrt(RefractDiscriminant(Dot(Unit(v, sqrt), n), 1.0)), -Dot(Unit(v, sqrt), n));
    BendMatched(Unit(v, sqrt), n, sqrt(RefractDiscriminant(Dot(Unit(v, sqrt), n), 1.0)));
  }

  lemma MatchedDiscriminant(dt: real)
    requires dt < 0.0
    ensures RefractDiscriminant(dt, 1.0) == dt * dt && 0.0 < dt * dt
  {
    SquarePositive(dt);
  }

  /** With `ni_over_nt == 1` and `s == -(uv . n)` the bend is no bend. */
  lemma BendMatched(uv: Vec3, n: Vec3, s: real)
    requires s == -Dot(uv, n)
    ensures Bend(uv, n, 1.0, s) == uv
  {
    UndoScaledSub(uv, n, Dot(uv, n));
  }

  /** Square roots are unique among non-negative reals. */
  lemma SqrtUnique(s: real, a: real)
    requires 0.0 <= s && 0.0 <= a && s * s == a * a
    ensures s == a
  {
    assert (s - a) * (s + a) == 0.0;
    ProductZero(s - a, s + a);
  }

  /** The unit vector of `v` lies on the same side of any plane through 0 as `v`. */
  lemma UnitSign(v: Vec3, n: Vec3, sqrt: real -> real)
    requires IsSqrt(sqrt) && v != Zero
    ensures Dot(Unit(v, sqrt), n) < 0.0 <==> Dot(v, n) < 0.0
    ensures Dot(Unit(v, sqrt), n) > 0.0 <==> Dot(v, n) > 0.0
  {
    var len := Length(v, sqrt);
    var uv := Unit(v, sqrt);
    DotScaled(uv, n, len);
    assert Dot(v, n) == len * Dot(uv, n);
    PositiveMultipleSign(len, Dot(uv, n));
  }

  lemma PositiveMultipleSign(k: real, a: real)
    requires 0.0 < k
    ensures k * a < 0.0 <==> a < 0.0
    ensures k * a > 0.0 <==> a > 0.0
  {
    if a < 0.0 {
      ProductPositive(k, -a);
    } else if a > 0.0 {
      ProductPositive(k, a);
    }
  }

  // ---------------------------------------------------------------------
  // scatter, per material

  /** `Lambertian::scatter`: aim at `point + normal + sample` and always
      scatter, tinted by the albedo at the hit point. */
  function LambertianScatter(albedo: Texture, point: Vec3, normal: Vec3, sample: Vec3, sin: real -> real)
    : (s: ScatterRecord)
    ensures s.scattered.origin == point
    ensures s.scattered.direction == Add(normal, sample)
    ensures s.attenuation == Value(albedo, 0.0, 0.0, point, sin)
  {
    var target := Add(Add(point, normal), sample);
    ScatterRecord(Value(albedo, 0.0, 0.0, point, sin), Ray(point, Sub(target, point)))
  }

  /** With a unit normal and a sample strictly inside the unit sphere, the
      diffuse direction points strictly away from the surface. */
  lemma LambertianLeavesSurface(albedo: Texture, point: Vec3, normal: Vec3, sample: Vec3, sin: real -> real)
    requires SquaredLength(normal) == 1.0 && SquaredLength(sample) < 1.0
    ensures Dot(LambertianScatter(albedo, point, normal, sample, sin).scattered.direction, normal) > 0.0
  {
    DotAdd(normal, sample, normal);
    CauchySchwarz(sample, normal);
    SquareBelowOne(Dot(sample, normal));
  }

  lemma SquareBelowOne(x: real)
    requires x * x < 1.0
    ensures -1.0 < x
  {
    if x <= -1.0 {
      MulMonotone(1.0, -x, -x);
    }
  }

  /** `Metal::scatter`: mirror the unit incoming direction about the normal,
      perturb it by `fuzz` times the sample, and keep it only if it leaves
      the surface (`dot(scattered, normal) > 0`). */
  function MetalScatter(albedo: Texture, fuzz: real, r: Ray, point: Vec3, normal: Vec3, sample: Vec3,
                        sin: real -> real, sqrt: real -> real): (s: Option<ScatterRecord>)
    requires IsSqrt(sqrt) && r.direction != Zero
    ensures s.Some? <==> Dot(MetalDirection(fuzz, r.direction, normal, sample, sqrt), normal) > 0.0
    ensures s.Some? ==> s.value.scattered == Ray(point, MetalDirection(fuzz, r.direction, normal, sample, sqrt))
    ensures s.Some? ==> s.value.attenuation == Value(albedo, 0.0, 0.0, point, sin)
  {
    var reflected := Reflect(Unit(r.direction, sqrt), normal);
    var scattered := Ray(point, Add(reflected, ScalarMul(fuzz, sample)));
    if Dot(scattered.direction, normal) > 0.0 then
      Some(ScatterRecord(Value(albedo, 0.0, 0.0, point, sin), scattered))
    else
      None
  }

  /** The perturbed mirror direction Metal tries. */
  function MetalDirection(fuzz: real, d: Vec3, normal: Vec3, sample: Vec3, sqrt: real -> real): Vec3
    requires IsSqrt(sqrt) && d != Zero
  {
    Add(Reflect(Unit(d, sqrt), normal), ScalarMul(fuzz, sample))
  }

  /** A perfect mirror (`fuzz == 0`) with a unit normal scatters exactly the
      rays that arrive against the normal, into a unit direction. */
  lemma MirrorScatters(albedo: Texture, r: Ray, point: Vec3, normal: Vec3, sample: Vec3,
                       sin: real -> real, sqrt: real -> real)
    requires IsSqrt(sqrt) && r.direction != Zero && SquaredLength(normal) == 1.0
    ensures MetalScatter(albedo, 0.0, r, point, normal, sample, sin, sqrt).Some? <==> Dot(r.direction, normal) < 0.0
    ensures SquaredLength(MetalDirection(0.0, r.direction, normal, sample, sqrt)) == 1.0
  {
    var uv := Unit(r.direction, sqrt);
    assert MetalDirection(0.0, r.direction, normal, sample, sqrt) == Reflect(uv, normal);
    ReflectNormalComponent(uv, normal);
    ReflectKeepsLength(uv, normal);
    UnitSign(r.direction, normal, sqrt);
  }

  /** Which side a Dielectric ray is on: the normal facing the ray, the index
      ratio `ni_over_nt` and the cosine used by Schlick. */
  datatype Interface = Interface(outward: Vec3, niOverNt: real, cosine: real)

  /** Dielectric's orientation step.  A ray with `dot(d, n) > 0` is leaving
      the object: the outward normal is `-n`, the ratio is `ref_idx` and the
      cosine is `ref_idx (d . n) / |d|`.  Otherwise the ray enters: the
      normal is `n`, the ratio `1 / ref_idx` and the cosine `-(d . n) / |d|`.
      Either way the chosen normal faces the incoming ray. */
  function Orient(d: Vec3, normal: Vec3, refIdx: real, sqrt: real -> real): (o: Interface)
    requires IsSqrt(sqrt) && d != Zero && refIdx != 0.0
    ensures Dot(d, normal) > 0.0 ==>
              o.outward == MulScalar(normal, -1.0) && o.niOverNt == refIdx
              && o.cosine == refIdx * Dot(d, normal) / Length(d, sqrt)
    ensures !(Dot(d, normal) > 0.0) ==>
              o.outward == normal && o.niOverNt == 1.0 / refIdx
              && o.cosine == -1.0 * Dot(d, normal) / Length(d, sqrt)
    ensures Dot(d, o.outward) <= 0.0
    ensures 0.0 < refIdx ==> 0.0 <= o.cosine
  {
    var len := Length(d, sqrt);
    var dn := Dot(d, normal);
    DotScaled(normal, d, -1.0);
    DotSymmetric(normal, d);
    CosineSign(refIdx, dn, len);
    if dn > 0.0 then
      Interface(ScalarMul(-1.0, normal), refIdx, refIdx * dn / len)
    else
      Interface(normal, 1.0 / refIdx, -1.0 * dn / len)
  }

  lemma CosineSign(refIdx: real, dn: real, len: real)
    requires 0.0 < len
    ensures 0.0 < dn && 0.0 < refIdx ==> 0.0 <= refIdx * dn / len
    ensures dn <= 0.0 ==> 0.0 <= -1.0 * dn / len
  {
    if 0.0 < dn && 0.0 < refIdx {
      ProductPositive(refIdx, dn);
      DivMonotone(0.0, refIdx * dn, len);
    }
    DivMonotone(0.0, -1.0 * dn, len);
  }

  /** The probability of reflecting: Schlick's value when refraction is
      possible, 1 under total internal reflection.  For a ray arriving
      against a unit normal it is a probability no smaller than `r0`; a
      head-on arriving ray that refracts reflects with probability `r0`. */
  function ReflectProb(d: Vec3, normal: Vec3, refIdx: real, sqrt: real -> real): (p: real)
    requires IsSqrt(sqrt) && d != Zero && refIdx != 0.0 && refIdx != -1.0
    ensures var o := Orient(d, normal, refIdx, sqrt);
            !Refract(d, o.outward, o.niOverNt, sqrt).shouldRefract ==> p == 1.0
    ensures 0.0 < refIdx && SquaredLength(normal) == 1.0 && Dot(d, normal) <= 0.0 ==> R0(refIdx) <= p <= 1.0
    ensures var o := Orient(d, normal, refIdx, sqrt);
            Refract(d, o.outward, o.niOverNt, sqrt).shouldRefract && o.cosine == 1.0 ==> p == R0(refIdx)
  {
    var o := Orient(d, normal, refIdx, sqrt);
    ArrivingCosine(d, normal, sqrt);
    R0Bounds(refIdx);
    if Refract(d, o.outward, o.niOverNt, sqrt).shouldRefract then Schlick(o.cosine, refIdx) else 1.0
  }

  /** The cosine Dielectric computes for an arriving ray, `-(d . n) / |d|`,
      is at most 1 for a unit normal. */
  lemma ArrivingCosine(d: Vec3, normal: Vec3, sqrt: real -> real)
    requires IsSqrt(sqrt) && d != Zero
    ensures SquaredLength(normal) == 1.0 && Dot(d, normal) <= 0.0 ==>
              -1.0 * Dot(d, normal) / Length(d, sqrt) <= 1.0
  {
    if SquaredLength(normal) == 1.0 && Dot(d, normal) <= 0.0 {
      var len := Length(d, sqrt);
      var m := -1.0 * Dot(d, normal);
      CauchySchwarz(d, normal);
      assert m * m == Dot(d, normal) * Dot(d, normal);
      assert m * m <= len * len;
      RootBelow(m, len);
      DivMonotone(m, len, len);
      assert len / len == 1.0;
    }
  }

  /** Of two non-negative reals, the one with the smaller square is the
      smaller. */
  lemma RootBelow(m: real, len: real)
    requires 0.0 < len && 0.0 <= m && m * m <= len * len
    ensures m <= len
  {
    if len < m {
      assert (m - len) * (m + len) == m * m - len * len;
      ProductPositive(m - len, m + len);
    }
  }

  /** The source's cosine for a leaving ray, `ref_idx (d . n) / |d|`, can
      exceed 1, and Schlick's value then leaves `[0, 1]`: a ray leaving a
      glass of index 2 head-on along a unit normal refracts, and its
      reflection probability is `1/9 - 8/9 = -7/9`, so it is never
      reflected. */
  lemma LeavingHeadOn(normal: Vec3, sqrt: real -> real)
    requires IsSqrt(sqrt) && SquaredLength(normal) == 1.0
    ensures var o := Orient(normal, normal, 2.0, sqrt);
            o.cosine == 2.0 && Refract(normal, o.outward, o.niOverNt, sqrt).shouldRefract
    ensures ReflectProb(normal, normal, 2.0, sqrt) == -7.0 / 9.0
  {
    SquaredLengthFacts(normal);
    var len := Length(normal, sqrt);
    SquareOne(len);
    var o := Orient(normal, normal, 2.0, sqrt);
    assert o.cosine == 2.0;
    var uv := Unit(normal, sqrt);
    assert uv == normal by {
      assert MulScalar(uv, 1.0) == normal;
    }
    assert Dot(uv, o.outward) == -1.0;
    assert RefractDiscriminant(-1.0, 2.0) == 1.0;
    assert R0(2.0) == 1.0 / 9.0;
    assert Pow5(1.0 - 2.0) == -1.0;
  }

  /** The non-negative square root of 1 is 1. */
  lemma SquareOne(x: real)
    requires 0.0 <= x && x * x == 1.0
    ensures x == 1.0
  {
    if x < 1.0 {
      MulMonotone(x, 1.0, x);
    } else if 1.0 < x {
      MulMonotone(1.0, x, x);
    }
  }

  /** `Dielectric::scatter`: always scatters, with white attenuation.  It
      reflects the raw incoming direction when `choice` falls below the
      reflection probability (so always, for a draw in `[0, 1)`, under total
      internal reflection) and otherwise takes the refracted direction. */
  function DielectricScatter(refIdx: real, r: Ray, point: Vec3, normal: Vec3, choice: real, sqrt: real -> real)
    : (s: Option<ScatterRecord>)
    requires IsSqrt(sqrt) && r.direction != Zero && refIdx != 0.0 && refIdx != -1.0
    ensures s.Some? && s.value.attenuation == White && s.value.scattered.origin == point
    ensures choice < ReflectProb(r.direction, normal, refIdx, sqrt) ==>
              s.value.scattered.direction == Reflect(r.direction, normal)
    ensures !(choice < ReflectProb(r.direction, normal, refIdx, sqrt)) ==>
              var o := Orient(r.direction, normal, refIdx, sqrt);
              s.value.scattered.direction == Refract(r.direction, o.outward, o.niOverNt, sqrt).refracted
    ensures var o := Orient(r.direction, normal, refIdx, sqrt);
            !Refract(r.direction, o.outward, o.niOverNt, sqrt).shouldRefract && choice < 1.0 ==>
              s.value.scattered.direction == Reflect(r.direction, normal)
  {
    var reflected := Reflect(r.direction, normal);
    var o := Orient(r.direction, normal, refIdx, sqrt);
    var refractRec := Refract(r.direction, o.outward, o.niOverNt, sqrt);
    var reflectProb := if refractRec.shouldRefract then Schlick(o.cosine, refIdx) else 1.0;
    var scattered := if choice < reflectProb then Ray(point, reflected) else Ray(point, refractRec.refracted);
    Some(ScatterRecord(White, scattered))
  }

  /** With a unit normal, a Dielectric ray that is not reflected passes
      through the surface: it is a unit vector on the far side of the
      normal that faces the incoming ray. */
  lemma DielectricTransmits(refIdx: real, r: Ray, point: Vec3, normal: Vec3, choice: real, sqrt: real -> real)
    requires IsSqrt(sqrt) && r.direction != Zero && refIdx != 0.0 && refIdx != -1.0
    requires SquaredLength(normal) == 1.0
    requires ReflectProb(r.direction, normal, refIdx, sqrt) <= choice < 1.0
    ensures var o := Orient(r.direction, normal, refIdx, sqrt);
            var dir := DielectricScatter(refIdx, r, point, normal, choice, sqrt).value.scattered.direction;
            Dot(dir, o.outward) < 0.0 && SquaredLength(dir) == 1.0
  {
    var o := Orient(r.direction, normal, refIdx, sqrt);
    SquaredLengthScaled(normal, -1.0);
    assert SquaredLength(o.outward) == 1.0;
    RefractThroughSurface(r.direction, o.outward, o.niOverNt, sqrt);
  }

  /** `Isotropic::scatter`: scatter from the point in the sampled direction,
      tinted by the albedo at the point. */
  function IsotropicScatter(albedo: Texture, point: Vec3, sample: Vec3, sin: real -> real): (s: ScatterRecord)
    ensures s.scattered == Ray(point, sample)
    ensures s.attenuation == Value(albedo, 0.0, 0.0, point, sin)
  {
    ScatterRecord(Value(albedo, 0.0, 0.0, point, sin), Ray(point, sample))
  }

  // ---------------------------------------------------------------------
  // dispatch

  /** What the f32 code needs to avoid dividing by zero: Metal and
      Dielectric take the unit vector of the incoming direction, and
      Dielectric divides by `ref_idx` and by `1 + ref_idx`. */
  predicate ScatterDefined(m: Material, r: Ray) {
    (m.Metal? || m.Dielectric? ==> r.direction != Zero)
    && (m.Dielectric? ==> m.refIdx != 0.0 && m.refIdx != -1.0)
  }

  /** `Material::scatter`.  Lambertian, Dielectric and Isotropic always
      scatter from the hit point; Metal scatters exactly when its direction
      leaves the surface; DiffuseLight never scatters. */
  function Scatter(m: Material, r: Ray, t: real, point: Vec3, normal: Vec3, sample: Vec3, choice: real,
                   sin: real -> real, sqrt: real -> real): (s: Option<ScatterRecord>)
    requires IsSqrt(sqrt) && ScatterDefined(m, r)
    ensures s.None? <==>
              m.DiffuseLight?
              || (m.Metal? && !(Dot(MetalDirection(m.fuzz, r.direction, normal, sample, sqrt), normal) > 0.0))
    ensures s.Some? ==> s.value.scattered.origin == point
    ensures m.Lambertian? || m.Isotropic? || m.Metal? ==>
              s.Some? ==> s.value.attenuation == Value(m.albedo, 0.0, 0.0, point, sin)
    ensures m.Dielectric? ==> s.Some? && s.value.attenuation == White
  {
    match m
    case Lambertian(albedo) => Some(LambertianScatter(albedo, point, normal, sample, sin))
    case Metal(albedo, fuzz) => MetalScatter(albedo, fuzz, r, point, normal, sample, sin, sqrt)
    case Dielectric(refIdx) => DielectricScatter(refIdx, r, point, normal, choice, sqrt)
    case Isotropic(albedo) => Some(IsotropicScatter(albedo, point, sample, sin))
    case DiffuseLight(_) => None
  }

  /** `Material::emitted`: only DiffuseLight emits, the colour of its
      texture at `(u, v, p)`; every other material emits black. */
  function Emitted(m: Material, u: real, v: real, p: Vec3, sin: real -> real): (c: Vec3)
    ensures m.DiffuseLight? ==> c == Value(m.emit, u, v, p, sin)
    ensures !m.DiffuseLight? ==> c == Zero
  {
    match m
    case DiffuseLight(emit) => Value(emit, u, v, p, sin)
    case _ => Zero
  }

  /** A material that emits light absorbs every ray, and a material that
      scatters emits nothing. */
  lemma {:induction false} EmitOrScatter(m: Material, r: Ray, t: real, point: Vec3, normal: Vec3, sample: Vec3,
                                         choice: real, u: real, v: real, sin: real -> real, sqrt: real -> real)
    requires IsSqrt(sqrt) && ScatterDefined(m, r)
    ensures Emitted(m, u, v, point, sin) != Zero ==> Scatter(m, r, t, point, normal, sample, choice, sin, sqrt).None?
    ensures Scatter(m, r, t, point, normal, sample, choice, sin, sqrt).Some? ==> Emitted(m, u, v, point, sin) == Zero
  {
  }
}
