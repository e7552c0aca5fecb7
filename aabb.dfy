/** Axis-aligned bounding boxes (src/aabb.rs): the union of two boxes and the
    slab test of a ray against a box. */
module Boxes {
  import opened Options
  import opened Vectors
  import opened Rays

  datatype AABB = AABB(min: Vec3, max: Vec3)

  /** `f32::min` over the reals. */
  function Min(a: real, b: real): (r: real)
    ensures r <= a && r <= b && (r == a || r == b)
  {
    if a < b then a else b
  }

  /** `f32::max` over the reals. */
  function Max(a: real, b: real): (r: real)
    ensures a <= r && b <= r && (r == a || r == b)
  {
    if a < b then b else a
  }

  /** The box invariant `min <= max` on every axis. */
  predicate WellFormed(b: AABB) {
    b.min.x <= b.max.x && b.min.y <= b.max.y && b.min.z <= b.max.z
  }

  /** Every point of `inner` is a point of `outer` (corner-wise comparison). */
  predicate Contains(outer: AABB, inner: AABB) {
    outer.min.x <= inner.min.x && outer.min.y <= inner.min.y && outer.min.z <= inner.min.z &&
    inner.max.x <= outer.max.x && inner.max.y <= outer.max.y && inner.max.z <= outer.max.z
  }

  /** `p` lies strictly inside `b` on every axis. */
  predicate StrictlyInside(b: AABB, p: Vec3) {
    b.min.x < p.x < b.max.x && b.min.y < p.y < b.max.y && b.min.z < p.z < b.max.z
  }

  /** `surrounding_bbox`: the component-wise minimum of the two minima and
      maximum of the two maxima.  It contains both boxes, it is contained in
      every box that contains both (it is the tightest), and it keeps the box
      invariant. */
  function SurroundingBox(box0: AABB, box1: AABB): (r: AABB)
    ensures Contains(r, box0) && Contains(r, box1)
    ensures forall c :: Contains(c, box0) && Contains(c, box1) ==> Contains(c, r)
    ensures WellFormed(box0) && WellFormed(box1) ==> WellFormed(r)
  {
    var small := Vec3(Min(box0.min.x, box1.min.x), Min(box0.min.y, box1.min.y), Min(box0.min.z, box1.min.z));
    var big := Vec3(Max(box0.max.x, box1.max.x), Max(box0.max.y, box1.max.y), Max(box0.max.z, box1.max.z));
    AABB(small, big)
  }

  /** The union is commutative. */
  lemma SurroundingCommutes(box0: AABB, box1: AABB)
    ensures SurroundingBox(box0, box1) == SurroundingBox(box1, box0)
  {
  }

  /** The union of a box with itself is that box. */
  lemma SurroundingIdempotent(b: AABB)
    ensures SurroundingBox(b, b) == b
  {
  }

  /** The ray parameter at which the ray enters the slab `[lo, hi]` of one
      axis: the crossing of the plane `lo`, or of the plane `hi` when the
      reciprocal direction is negative (the swap of `check_one_direction`). */
  function Entry(d: real, o: real, lo: real, hi: real): real
    requires d != 0.0
  {
    var invD := 1.0 / d;
    if invD < 0.0 then (hi - o) * invD else (lo - o) * invD
  }

  /** The ray parameter at which the ray leaves the slab `[lo, hi]`. */
  function Exit(d: real, o: real, lo: real, hi: real): real
    requires d != 0.0
  {
    var invD := 1.0 / d;
    if invD < 0.0 then (lo - o) * invD else (hi - o) * invD
  }

  /** After the swap the entry comes first whenever the slab is not
      inverted. */
  lemma CrossingsOrdered(d: real, o: real, lo: real, hi: real)
    requires d != 0.0 && lo <= hi
    ensures Entry(d, o, lo, hi) <= Exit(d, o, lo, hi)
  {
    var invD := 1.0 / d;
    if invD < 0.0 {
      MulAntitone(lo - o, hi - o, invD);
    } else {
      Reciprocal(d);
      MulMonotone(lo - o, hi - o, invD);
    }
  }

  /** Widening a slab moves the entry earlier and the exit later. */
  lemma CrossingsWiden(d: real, o: real, lo: real, hi: real, lo2: real, hi2: real)
    requires d != 0.0 && lo2 <= lo && hi <= hi2
    ensures Entry(d, o, lo2, hi2) <= Entry(d, o, lo, hi)
    ensures Exit(d, o, lo, hi) <= Exit(d, o, lo2, hi2)
  {
    var invD := 1.0 / d;
    if invD < 0.0 {
      MulAntitone(hi - o, hi2 - o, invD);
      MulAntitone(lo2 - o, lo - o, invD);
    } else {
      Reciprocal(d);
      MulMonotone(lo2 - o, lo - o, invD);
      MulMonotone(hi - o, hi2 - o, invD);
    }
  }

  /** What `check_one_direction` decides for one axis.  With a non-zero
      direction component the caller's interval, narrowed to the slab's
      crossing interval, must stay non-empty: the check fails exactly when
      `min(t1, tmax) <= max(t0, tmin)`.  A zero component makes the
      reciprocal an infinity in f32; the crossings are then both infinite
      with the same sign when the origin lies outside the slab (a miss) and
      of opposite signs, or NaN, when it lies inside or on it (the caller's
      interval survives unchanged), which is what the zero branch states. */
  function SlabCheck(d: real, o: real, lo: real, hi: real, tmin: real, tmax: real): bool {
    if d == 0.0 then
      lo <= o <= hi && tmin < tmax
    else
      Max(Entry(d, o, lo, hi), tmin) < Min(Exit(d, o, lo, hi), tmax)
  }

  /** An empty or inverted caller interval always fails the check. */
  lemma SlabCheckEmptyInterval(d: real, o: real, lo: real, hi: real, tmin: real, tmax: real)
    requires tmax <= tmin
    ensures !SlabCheck(d, o, lo, hi, tmin, tmax)
  {
  }

  /** `check_one_direction`, with its mutable crossing parameters `t0` and
      `t1` and the in-place swap.  The zero-direction branch stands for the
      infinite reciprocal (see `SlabCheck`). */
  method CheckOneDirection(rayDirection: real, rayOrigin: real, minAxis: real, maxAxis: real,
                           tmin: real, tmax: real) returns (hit: bool)
    ensures hit == SlabCheck(rayDirection, rayOrigin, minAxis, maxAxis, tmin, tmax)
    ensures tmax <= tmin ==> !hit
  {
    if rayDirection == 0.0 {
      return minAxis <= rayOrigin <= maxAxis && tmin < tmax;
    }
    var invD := 1.0 / rayDirection;
    var t0 := (minAxis - rayOrigin) * invD;
    var t1 := (maxAxis - rayOrigin) * invD;
    if invD < 0.0 {
      t0, t1 := t1, t0;
    }
    assert t0 == Entry(rayDirection, rayOrigin, minAxis, maxAxis);
    assert t1 == Exit(rayDirection, rayOrigin, minAxis, maxAxis);
    var narrowMin := if t0 > tmin then t0 else tmin;
    var narrowMax := if t1 < tmax then t1 else tmax;
    if narrowMax <= narrowMin {
      return false;
    }
    return true;
  }

  /** `AABB::hit`: the three per-axis checks, each against the caller's
      original `tmin`/`tmax` (the narrowed interval of one axis is not passed
      on to the next).  An empty or inverted interval never hits. */
  function BoxHit(b: AABB, r: Ray, tmin: real, tmax: real): (hit: bool)
    ensures tmax <= tmin ==> !hit
    ensures hit <==> SlabCheck(r.direction.x, r.origin.x, b.min.x, b.max.x, tmin, tmax) &&
                     SlabCheck(r.direction.y, r.origin.y, b.min.y, b.max.y, tmin, tmax) &&
                     SlabCheck(r.direction.z, r.origin.z, b.min.z, b.max.z, tmin, tmax)
  {
    if !SlabCheck(r.direction.x, r.origin.x, b.min.x, b.max.x, tmin, tmax) then false
    else if !SlabCheck(r.direction.y, r.origin.y, b.min.y, b.max.y, tmin, tmax) then false
    else if !SlabCheck(r.direction.z, r.origin.z, b.min.z, b.max.z, tmin, tmax) then false
    else true
  }

  /** Widening a slab never turns a passing check into a failing one. */
  lemma {:induction false} SlabMonotone(d: real, o: real, lo: real, hi: real, lo2: real, hi2: real,
                                        tmin: real, tmax: real)
    requires lo2 <= lo && hi <= hi2
    requires SlabCheck(d, o, lo, hi, tmin, tmax)
    ensures SlabCheck(d, o, lo2, hi2, tmin, tmax)
  {
    if d != 0.0 {
      CrossingsWiden(d, o, lo, hi, lo2, hi2);
    }
  }

  /** A ray that passes the test of a box passes the test of every box
      containing it; this is what lets a BVH node's cached union box stand
      for the boxes below it. */
  lemma BoxHitMonotone(small: AABB, big: AABB, r: Ray, tmin: real, tmax: real)
    requires Contains(big, small)
    requires BoxHit(small, r, tmin, tmax)
    ensures BoxHit(big, r, tmin, tmax)
  {
    SlabMonotone(r.direction.x, r.origin.x, small.min.x, small.max.x, big.min.x, big.max.x, tmin, tmax);
    SlabMonotone(r.direction.y, r.origin.y, small.min.y, small.max.y, big.min.y, big.max.y, tmin, tmax);
    SlabMonotone(r.direction.z, r.origin.z, small.min.z, small.max.z, big.min.z, big.max.z, tmin, tmax);
  }

  /** Scaling by a positive factor keeps a strict order, by a negative one
      reverses it. */
  lemma ScaleStrict(a: real, b: real, k: real)
    requires a < b && k != 0.0
    ensures 0.0 < k ==> a * k < b * k
    ensures k < 0.0 ==> b * k < a * k
  {
    if 0.0 < k {
      ProductPositive(b - a, k);
    } else {
      ProductPositive(b - a, -k);
    }
  }

  /** A ray whose point at `t` lies strictly inside the slab `(lo, hi)`, for
      a `t` in the window `[tmin, tmax)`, passes the per-axis check. */
  lemma {:induction false} SlabAroundPoint(d: real, o: real, lo: real, hi: real, t: real, tmin: real, tmax: real)
    requires lo < o + d * t < hi && tmin <= t < tmax
    ensures SlabCheck(d, o, lo, hi, tmin, tmax)
  {
    if d != 0.0 {
      var invD := 1.0 / d;
      Reciprocal(d);
      assert (d * t) * invD == t by {
        assert d * invD == 1.0;
        assert (d * t) * invD == t * (d * invD);
      }
      ScaledAround(lo - o, hi - o, d * t, invD, t);
      assert Entry(d, o, lo, hi) < t < Exit(d, o, lo, hi) by {
        if invD < 0.0 {
          assert Entry(d, o, lo, hi) == (hi - o) * invD && Exit(d, o, lo, hi) == (lo - o) * invD;
        } else {
          assert Entry(d, o, lo, hi) == (lo - o) * invD && Exit(d, o, lo, hi) == (hi - o) * invD;
        }
      }
      SlabAroundCrossing(d, o, lo, hi, t, tmin, tmax);
    }
  }

  /** A parameter of the window strictly between the slab's crossings
      passes the per-axis check. */
  lemma SlabAroundCrossing(d: real, o: real, lo: real, hi: real, t: real, tmin: real, tmax: real)
    requires d != 0.0 && Entry(d, o, lo, hi) < t < Exit(d, o, lo, hi) && tmin <= t < tmax
    ensures SlabCheck(d, o, lo, hi, tmin, tmax)
  {
  }

  /** Scaling `a < u < b` by `k`, where `u` scales to `t`, puts `t` strictly
      between the scaled ends, in reverse order for a negative `k`. */
  lemma ScaledAround(a: real, b: real, u: real, k: real, t: real)
    requires a < u < b && k != 0.0 && u * k == t
    ensures 0.0 < k ==> a * k < t < b * k
    ensures k < 0.0 ==> b * k < t < a * k
  {
    ScaleStrict(a, u, k);
    ScaleStrict(u, b, k);
  }

  /** The box test accepts every ray that is strictly inside the box at
      some parameter of the window `[tmin, tmax)`. */
  lemma InsideBoxHit(b: AABB, r: Ray, t: real, tmin: real, tmax: real)
    requires StrictlyInside(b, PointAt(r, t)) && tmin <= t < tmax
    ensures BoxHit(b, r, tmin, tmax)
  {
    SlabAroundPoint(r.direction.x, r.origin.x, b.min.x, b.max.x, t, tmin, tmax);
    SlabAroundPoint(r.direction.y, r.origin.y, b.min.y, b.max.y, t, tmin, tmax);
    SlabAroundPoint(r.direction.z, r.origin.z, b.min.z, b.max.z, t, tmin, tmax);
  }

  /** On one axis, the ray's coordinate between two parameters lies between
      its coordinates at those parameters. */
  lemma SegmentComponent(o: real, d: real, lo: real, hi: real, t1: real, t2: real, t: real)
    requires lo < o + d * t1 < hi && lo < o + d * t2 < hi && t1 <= t <= t2
    ensures lo < o + d * t < hi
  {
    if 0.0 <= d {
      SegmentForward(o, d, lo, hi, t1, t2, t);
    } else {
      SegmentBackward(o, d, lo, hi, t1, t2, t);
    }
  }

  lemma SegmentForward(o: real, d: real, lo: real, hi: real, t1: real, t2: real, t: real)
    requires 0.0 <= d
    requires lo < o + d * t1 < hi && lo < o + d * t2 < hi && t1 <= t <= t2
    ensures lo < o + d * t < hi
  {
    ScaleUp(d, t1, t);
    ScaleUp(d, t, t2);
    OffsetBetween(o, lo, hi, d * t1, d * t2, d * t);
  }

  lemma SegmentBackward(o: real, d: real, lo: real, hi: real, t1: real, t2: real, t: real)
    requires d <= 0.0
    requires lo < o + d * t1 < hi && lo < o + d * t2 < hi && t1 <= t <= t2
    ensures lo < o + d * t < hi
  {
    ScaleDown(d, t1, t);
    ScaleDown(d, t, t2);
    OffsetBetween(o, lo, hi, d * t2, d * t1, d * t);
  }

  /** A value between two values strictly inside `(lo, hi)`, each shifted by
      `o`, is strictly inside it after the same shift. */
  lemma OffsetBetween(o: real, lo: real, hi: real, x1: real, x2: real, x: real)
    requires lo < o + x1 < hi && lo < o + x2 < hi && x1 <= x <= x2
    ensures lo < o + x < hi
  {
  }

  /** Scaling by a non-negative factor keeps an order. */
  lemma ScaleUp(k: real, a: real, b: real)
    requires 0.0 <= k && a <= b
    ensures k * a <= k * b
  {
    if 0.0 < k && a < b {
      ProductPositive(k, b - a);
      assert k * (b - a) == k * b - k * a;
    }
  }

  /** Scaling by a non-positive factor reverses an order. */
  lemma ScaleDown(k: real, a: real, b: real)
    requires k <= 0.0 && a <= b
    ensures k * b <= k * a
  {
    if k < 0.0 && a < b {
      ProductPositive(-k, b - a);
      assert (-k) * (b - a) == k * a - k * b;
    }
  }

  /** A box is convex along a ray: between two parameters at which the ray
      is strictly inside, it stays strictly inside. */
  lemma InsideBetween(b: AABB, r: Ray, t1: real, t2: real, t: real)
    requires StrictlyInside(b, PointAt(r, t1)) && StrictlyInside(b, PointAt(r, t2)) && t1 <= t <= t2
    ensures StrictlyInside(b, PointAt(r, t))
  {
    BetweenX(b, r, t1, t2, t);
    BetweenY(b, r, t1, t2, t);
    BetweenZ(b, r, t1, t2, t);
  }

  lemma BetweenX(b: AABB, r: Ray, t1: real, t2: real, t: real)
    requires b.min.x < PointAt(r, t1).x < b.max.x && b.min.x < PointAt(r, t2).x < b.max.x && t1 <= t <= t2
    ensures b.min.x < PointAt(r, t).x < b.max.x
  {
    SegmentComponent(r.origin.x, r.direction.x, b.min.x, b.max.x, t1, t2, t);
  }

  lemma BetweenY(b: AABB, r: Ray, t1: real, t2: real, t: real)
    requires b.min.y < PointAt(r, t1).y < b.max.y && b.min.y < PointAt(r, t2).y < b.max.y && t1 <= t <= t2
    ensures b.min.y < PointAt(r, t).y < b.max.y
  {
    SegmentComponent(r.origin.y, r.direction.y, b.min.y, b.max.y, t1, t2, t);
  }

  lemma BetweenZ(b: AABB, r: Ray, t1: real, t2: real, t: real)
    requires b.min.z < PointAt(r, t1).z < b.max.z && b.min.z < PointAt(r, t2).z < b.max.z && t1 <= t <= t2
    ensures b.min.z < PointAt(r, t).z < b.max.z
  {
    SegmentComponent(r.origin.z, r.direction.z, b.min.z, b.max.z, t1, t2, t);
  }

  /** One step of the usual slab test that narrows the interval axis by
      axis: the interval left by the previous axis is narrowed to this
      slab's crossings (`None` once it is empty).  It is a reference
      definition only; `BoxHit` is what the code does. */
  function NarrowSlab(d: real, o: real, lo: real, hi: real, iv: Option<(real, real)>): Option<(real, real)> {
    match iv
    case None => None
    case Some((tmin, tmax)) =>
      if d == 0.0 then
        if lo <= o <= hi && tmin < tmax then iv else None
      else
        var narrowMin := Max(Entry(d, o, lo, hi), tmin);
        var narrowMax := Min(Exit(d, o, lo, hi), tmax);
        if narrowMax <= narrowMin then None else Some((narrowMin, narrowMax))
  }

  /** The narrowing test over the three axes in turn. */
  function ThreadedBoxHit(b: AABB, r: Ray, tmin: real, tmax: real): bool {
    var ivX := NarrowSlab(r.direction.x, r.origin.x, b.min.x, b.max.x, Some((tmin, tmax)));
    var ivY := NarrowSlab(r.direction.y, r.origin.y, b.min.y, b.max.y, ivX);
    NarrowSlab(r.direction.z, r.origin.z, b.min.z, b.max.z, ivY).Some?
  }

  /** Narrowing only shrinks the interval. */
  lemma NarrowSlabShrinks(d: real, o: real, lo: real, hi: real, tmin: real, tmax: real)
    requires NarrowSlab(d, o, lo, hi, Some((tmin, tmax))).Some?
    ensures var (a, b) := NarrowSlab(d, o, lo, hi, Some((tmin, tmax))).value;
            tmin <= a < b <= tmax && SlabCheck(d, o, lo, hi, tmin, tmax)
  {
  }

  /** A per-axis check against a sub-interval passes against the whole interval. */
  lemma {:induction false} SlabWiderInterval(d: real, o: real, lo: real, hi: real,
                                             a: real, b: real, tmin: real, tmax: real)
    requires tmin <= a && b <= tmax
    requires SlabCheck(d, o, lo, hi, a, b)
    ensures SlabCheck(d, o, lo, hi, tmin, tmax)
  {
  }

  /** What the narrowing test accepts, the per-axis test accepts too. */
  lemma {:induction false} ThreadedImpliesBoxHit(b: AABB, r: Ray, tmin: real, tmax: real)
    requires ThreadedBoxHit(b, r, tmin, tmax)
    ensures BoxHit(b, r, tmin, tmax)
  {
    var ivX := NarrowSlab(r.direction.x, r.origin.x, b.min.x, b.max.x, Some((tmin, tmax)));
    var ivY := NarrowSlab(r.direction.y, r.origin.y, b.min.y, b.max.y, ivX);
    NarrowSlabShrinks(r.direction.x, r.origin.x, b.min.x, b.max.x, tmin, tmax);
    var (xa, xb) := ivX.value;
    NarrowSlabShrinks(r.direction.y, r.origin.y, b.min.y, b.max.y, xa, xb);
    var (ya, yb) := ivY.value;
    SlabWiderInterval(r.direction.y, r.origin.y, b.min.y, b.max.y, xa, xb, tmin, tmax);
    NarrowSlabShrinks(r.direction.z, r.origin.z, b.min.z, b.max.z, ya, yb);
    SlabWiderInterval(r.direction.z, r.origin.z, b.min.z, b.max.z, ya, yb, tmin, tmax);
  }

  /** The per-axis test is strictly weaker: here the ray is inside the x slab
      only for t in [2, 3] and inside the y slab only for t in [0, 1], so it
      never enters the box, yet `AABB::hit` reports a hit. */
  lemma PerAxisTestAcceptsAMiss()
    ensures var b := AABB(Vec3(2.0, 0.0, 0.0), Vec3(3.0, 1.0, 1.0));
            var r := Ray(Vec3(0.0, 0.0, 0.5), Vec3(1.0, 1.0, 0.0));
            BoxHit(b, r, 0.0, 10.0) && !ThreadedBoxHit(b, r, 0.0, 10.0) &&
            forall t :: !(b.min.x <= PointAt(r, t).x <= b.max.x && b.min.y <= PointAt(r, t).y <= b.max.y)
  {
  }
}
