/** The scene objects (src/hitable.rs): the `Hitable` interface over the
    closed set of shapes (sphere, triangle, constant medium and BVH node),
    the constant medium's interval logic, the BVH traversal and the BVH
    construction.

    The source draws random numbers in two places here: the split axis of
    every BVH node (`rand::random` at construction) and the free path of a
    constant medium (`-ln(random) / density`).  The axis draws are a stream
    `draw` consumed one per node in the order the source makes them; the free
    path is a parameter of the environment, a function of the medium's
    density.  The square root is a parameter too. */
module Hitables {
  import opened Options
  import opened Vectors
  import opened Rays
  import opened Textures
  import opened Materials
  import opened Hits
  import opened Boxes
  import opened SphereGeometry
  import opened Spheres
  import opened Triangles
  import opened Sorting

  datatype Hitable =
    | SphereShape(sphere: Sphere)
    | TriangleShape(triangle: Triangle)
    | Medium(medium: ConstantMedium)
    | Node(node: BvhNode)

  datatype ConstantMedium = ConstantMedium(boundary: Hitable, density: real, material: Material)

  datatype BvhNode = BvhNode(left: Hitable, right: Option<Hitable>, bbox: AABB)

  /** What a traversal needs from outside: the square root and the sampled
      free path `-ln(random) / density` of a medium of a given density. */
  datatype Env = Env(sqrt: real -> real, freePath: real -> real)

  /** The free path is never negative, as `-ln(u) / density` is for a draw
      `u` in `(0, 1]` and a positive density. */
  ghost predicate FreePathsNonNegative(env: Env) {
    forall density :: 0.0 <= env.freePath(density)
  }

  /** Parameter window of the medium's boundary queries. */
  const BoundaryWindow: real := 1000.0

  /** Offset of the exit query past the entry crossing. */
  const ExitOffset: real := 0.0001

  // ---------------------------------------------------------------------
  // Bounding boxes

  /** Whether `bounding_box` is defined: a sphere has none (the source's
      `Sphere` does not implement it), a medium has its boundary's. */
  predicate HasBox(h: Hitable)
    decreases h
  {
    match h
    case SphereShape(_) => false
    case TriangleShape(_) => true
    case Medium(m) => HasBox(m.boundary)
    case Node(_) => true
  }

  /** `bounding_box`: the triangle's padded box, the boundary's box for a
      medium, and the cached `bbox` for a BVH node. */
  function BoundingBox(h: Hitable): AABB
    requires HasBox(h)
    decreases h
  {
    match h
    case TriangleShape(tri) => TriangleBox(tri)
    case Medium(m) => BoundingBox(m.boundary)
    case Node(n) => n.bbox
  }

  /** `ConstantMedium::new`: the medium scatters with an Isotropic material
      over the given texture. */
  function NewMedium(boundary: Hitable, density: real, texture: Texture): ConstantMedium {
    ConstantMedium(boundary, density, Isotropic(texture))
  }

  /** A medium's box is its boundary's box, and its material is Isotropic. */
  lemma NewMediumFacts(boundary: Hitable, density: real, texture: Texture)
    ensures NewMedium(boundary, density, texture).material.Isotropic?
    ensures NewMedium(boundary, density, texture).material.albedo == texture
    ensures HasBox(Medium(NewMedium(boundary, density, texture))) <==> HasBox(boundary)
    ensures HasBox(boundary) ==> BoundingBox(Medium(NewMedium(boundary, density, texture))) == BoundingBox(boundary)
  {
  }

  // ---------------------------------------------------------------------
  // Traversal

  /** `Hitable::hit`, dispatched over the shapes.  Every reported hit lies
      on the ray at its parameter and, as long as free paths are not
      negative, inside the window `[tmin, tmax)`. */
  function Intersect(h: Hitable, tmin: real, tmax: real, r: Ray, env: Env): (hit: Option<Hit>)
    requires IsSqrt(env.sqrt)
    ensures hit.Some? ==> hit.value.p == PointAt(r, hit.value.t)
    ensures FreePathsNonNegative(env) && hit.Some? ==> tmin <= hit.value.t < tmax
    decreases h
  {
    match h
    case SphereShape(s) => SphereHit(s, tmin, tmax, r, env.sqrt)
    case TriangleShape(tri) => TriangleHit(tri, tmin, tmax, r)
    case Medium(m) => MediumHit(m, tmin, tmax, r, env)
    case Node(n) => BvhHit(n, tmin, tmax, r, env)
  }

  /** The nearer of the two children's hits; on equal parameters the right
      child's hit is taken. */
  function Closer(left: Option<Hit>, right: Option<Hit>): (h: Option<Hit>)
    ensures h.Some? <==> left.Some? || right.Some?
    ensures h == left || h == right
    ensures left.Some? && right.Some? ==> h.value.t == Min(left.value.t, right.value.t)
    ensures left.Some? && right.Some? && left.value.t < right.value.t ==> h == left
    ensures left.Some? && right.Some? && right.value.t <= left.value.t ==> h == right
  {
    match (left, right)
    case (Some(lh), Some(rh)) => if lh.t < rh.t then left else right
    case (Some(_), None) => left
    case (None, _) => right
  }

  /** `BvhNode::hit`.  A ray that misses the cached box gets nothing;
      otherwise the result is the nearer of the children's hits. */
  function BvhHit(n: BvhNode, tmin: real, tmax: real, r: Ray, env: Env): (h: Option<Hit>)
    requires IsSqrt(env.sqrt)
    ensures !BoxHit(n.bbox, r, tmin, tmax) ==> h.None?
    ensures h.Some? ==> h.value.p == PointAt(r, h.value.t)
    ensures FreePathsNonNegative(env) && h.Some? ==> tmin <= h.value.t < tmax
    ensures BoxHit(n.bbox, r, tmin, tmax) ==> h == Closer(Intersect(n.left, tmin, tmax, r, env), RightHit(n, tmin, tmax, r, env))
    decreases n
  {
    if BoxHit(n.bbox, r, tmin, tmax) then
      Closer(Intersect(n.left, tmin, tmax, r, env), RightHit(n, tmin, tmax, r, env))
    else
      None
  }

  /** The right child's hit, `None` when there is no right child. */
  function RightHit(n: BvhNode, tmin: real, tmax: real, r: Ray, env: Env): (h: Option<Hit>)
    requires IsSqrt(env.sqrt)
    ensures n.right.None? ==> h.None?
    ensures h.Some? ==> h.value.p == PointAt(r, h.value.t)
    ensures FreePathsNonNegative(env) && h.Some? ==> tmin <= h.value.t < tmax
    decreases n, 0
  {
    match n.right
    case Some(x) => Intersect(x, tmin, tmax, r, env)
    case None => None
  }

  /** `ConstantMedium::hit`: the boundary is queried over `(-1000, 1000)`
      for the entry crossing and again from the UNCLAMPED entry parameter
      plus `0.0001` for the exit; the rest is `InsideHit`. */
  function MediumHit(m: ConstantMedium, tmin: real, tmax: real, r: Ray, env: Env): (h: Option<Hit>)
    requires IsSqrt(env.sqrt)
    ensures h.Some? ==> Intersect(m.boundary, -BoundaryWindow, BoundaryWindow, r, env).Some?
    ensures h.Some? ==>
              var entry := Intersect(m.boundary, -BoundaryWindow, BoundaryWindow, r, env).value.t;
              var exit := Intersect(m.boundary, entry + ExitOffset, BoundaryWindow, r, env);
              exit.Some? && h == InsideHit(m, tmin, tmax, r, env, entry, exit.value.t)
    ensures h.Some? ==> h.value.p == PointAt(r, h.value.t)
    ensures FreePathsNonNegative(env) && h.Some? ==> tmin <= h.value.t < tmax
    decreases m
  {
    var first := Intersect(m.boundary, -BoundaryWindow, BoundaryWindow, r, env);
    if first.None? then
      None
    else
      var second := Intersect(m.boundary, first.value.t + ExitOffset, BoundaryWindow, r, env);
      if second.None? then
        None
      else
        InsideHit(m, tmin, tmax, r, env, first.value.t, second.value.t)
  }

  /** The medium's interval logic once the boundary crossings `entryT` and
      `exitT` are known.  The entry is raised to `tmin` and the exit lowered
      to `tmax`; an empty interval gives nothing.  Otherwise the entry is
      raised to 0 and `FreePathHit` decides. */
  function InsideHit(m: ConstantMedium, tmin: real, tmax: real, r: Ray, env: Env, entryT: real, exitT: real)
    : (h: Option<Hit>)
    requires IsSqrt(env.sqrt)
    ensures Min(exitT, tmax) <= Max(entryT, tmin) ==> h.None?
    ensures Max(entryT, tmin) < Min(exitT, tmax) ==> h == FreePathHit(m, r, env, Max(Max(entryT, tmin), 0.0), Min(exitT, tmax))
    ensures h.Some? ==> h.value.p == PointAt(r, h.value.t)
    ensures h.Some? ==> h.value.normal == Vec3(1.0, 0.0, 0.0) && h.value.material == m.material
    ensures h.Some? && 0.0 <= env.freePath(m.density) ==> Max(tmin, 0.0) <= h.value.t < Min(exitT, tmax)
  {
    var entry := Max(entryT, tmin);
    var exit := Min(exitT, tmax);
    if entry >= exit then
      None
    else
      FreePathHit(m, r, env, Max(entry, 0.0), exit)
  }

  /** The scattering step of the medium between parameters `start` and
      `exit`: the ray scatters if the sampled free path is shorter than
      the distance `(exit - start) |d|` it travels inside, at the parameter
      that free path away from `start`.  The hit has the arbitrary normal
      `(1, 0, 0)` and the medium's material. */
  function FreePathHit(m: ConstantMedium, r: Ray, env: Env, start: real, exit: real): (h: Option<Hit>)
    requires IsSqrt(env.sqrt)
    ensures h.Some? ==> h.value.p == PointAt(r, h.value.t)
    ensures h.Some? ==> h.value.normal == Vec3(1.0, 0.0, 0.0) && h.value.material == m.material
    ensures h.Some? && 0.0 <= env.freePath(m.density) ==> start <= h.value.t < exit
  {
    var len := Length(r.direction, env.sqrt);
    var distanceInsideBoundary := (exit - start) * len;
    var hitDistance := env.freePath(m.density);
    if hitDistance < distanceInsideBoundary && len != 0.0 then
      FreePathStep(hitDistance, len, start, exit);
      var t := start + hitDistance / len;
      Some(Hit(t, PointAt(r, t), Vec3(1.0, 0.0, 0.0), m.material))
    else
      None
  }

  /** When the medium scatters: exactly when the ray moves and the free path
      is shorter than the distance travelled inside. */
  lemma FreePathHitWhen(m: ConstantMedium, r: Ray, env: Env, start: real, exit: real)
    requires IsSqrt(env.sqrt)
    ensures FreePathHit(m, r, env, start, exit).Some? <==>
              r.direction != Zero && env.freePath(m.density) < (exit - start) * Length(r.direction, env.sqrt)
  {
  }

  /** The hit lies the free path away from `start`, measured along the ray. */
  lemma FreePathHitDistance(m: ConstantMedium, r: Ray, env: Env, start: real, exit: real)
    requires IsSqrt(env.sqrt) && FreePathHit(m, r, env, start, exit).Some?
    ensures (FreePathHit(m, r, env, start, exit).value.t - start) * Length(r.direction, env.sqrt) == env.freePath(m.density)
  {
    FreePathStep(env.freePath(m.density), Length(r.direction, env.sqrt), start, exit);
  }

  /** Walking the free path `hd` at speed `len > 0` from `start`, when
      `hd < (exit - start) len`, stops before `exit`, and, for `hd >= 0`, not
      before `start`. */
  lemma FreePathStep(hd: real, len: real, start: real, exit: real)
    requires 0.0 < len && hd < (exit - start) * len
    ensures start + hd / len < exit
    ensures (start + hd / len - start) * len == hd
    ensures 0.0 <= hd ==> start <= start + hd / len
  {
    assert (hd / len) * len == hd;
    assert hd / len < exit - start by {
      assert hd / len * len < (exit - start) * len;
    }
  }

  /** `ConstantMedium::hit` as the source writes it: the two boundary
      queries, then `InsideSteps` on mutable copies of the two hits; it
      computes `MediumHit`. */
  method MediumHitSteps(m: ConstantMedium, tmin: real, tmax: real, r: Ray, env: Env) returns (h: Option<Hit>)
    requires IsSqrt(env.sqrt)
    ensures h == MediumHit(m, tmin, tmax, r, env)
  {
    var hit1 := Intersect(m.boundary, -BoundaryWindow, BoundaryWindow, r, env);
    if hit1.Some? {
      var hit2 := Intersect(m.boundary, hit1.value.t + ExitOffset, BoundaryWindow, r, env);
      if hit2.Some? {
        h := InsideSteps(m, tmin, tmax, r, env, hit1.value, hit2.value);
        return;
      }
    }
    return None;
  }

  /** The interval logic of `ConstantMedium::hit` as the source writes it,
      clamping the parameters of the entry and exit hits step by step; it
      computes `InsideHit`. */
  method InsideSteps(m: ConstantMedium, tmin: real, tmax: real, r: Ray, env: Env, hit1: Hit, hit2: Hit)
    returns (h: Option<Hit>)
    requires IsSqrt(env.sqrt)
    ensures h == InsideHit(m, tmin, tmax, r, env, hit1.t, hit2.t)
  {
    var entry, exit := hit1, hit2;
    if entry.t < tmin {
      entry := entry.(t := tmin);
    }
    if exit.t > tmax {
      exit := exit.(t := tmax);
    }
    assert entry.t == Max(hit1.t, tmin) && exit.t == Min(hit2.t, tmax);
    if entry.t >= exit.t {
      return None;
    }
    if entry.t < 0.0 {
      entry := entry.(t := 0.0);
    }
    assert entry.t == Max(Max(hit1.t, tmin), 0.0);
    h := FreePathSteps(m, r, env, entry, exit);
  }

  /** The rest of `ConstantMedium::hit` as the source writes it: the
      distance inside the boundary, the sampled free path and the hit
      parameter; it computes `FreePathHit`. */
  method FreePathSteps(m: ConstantMedium, r: Ray, env: Env, hit1: Hit, hit2: Hit) returns (h: Option<Hit>)
    requires IsSqrt(env.sqrt)
    ensures h == FreePathHit(m, r, env, hit1.t, hit2.t)
  {
    var distanceInsideBoundary := (hit2.t - hit1.t) * Length(r.direction, env.sqrt);
    var hitDistance := env.freePath(m.density);
    if hitDistance < distanceInsideBoundary && Length(r.direction, env.sqrt) != 0.0 {
      var t := hit1.t + hitDistance / Length(r.direction, env.sqrt);
      return Some(Hit(t, PointAt(r, t), Vec3(1.0, 0.0, 0.0), m.material));
    }
    return None;
  }

  /** A hit from a medium made by `ConstantMedium::new` carries the
      Isotropic material over the medium's texture and the normal `(1, 0, 0)`. */
  lemma NewMediumHit(boundary: Hitable, density: real, texture: Texture, tmin: real, tmax: real, r: Ray, env: Env)
    requires IsSqrt(env.sqrt) && MediumHit(NewMedium(boundary, density, texture), tmin, tmax, r, env).Some?
    ensures MediumHit(NewMedium(boundary, density, texture), tmin, tmax, r, env).value.material == Isotropic(texture)
    ensures MediumHit(NewMedium(boundary, density, texture), tmin, tmax, r, env).value.normal == Vec3(1.0, 0.0, 0.0)
  {
  }

  /** The shapes under a tree, left to right: a BVH node contributes the
      leaves of its children, every other object is a leaf. */
  function Leaves(h: Hitable): (s: seq<Hitable>)
    ensures forall i :: 0 <= i < |s| ==> !s[i].Node?
    decreases h
  {
    match h
    case Node(n) =>
      Leaves(n.left) + (match n.right case Some(x) => Leaves(x) case None => [])
    case _ => [h]
  }

  /** Every hit of a tree is the hit of one of its leaves. */
  lemma {:induction false} HitFromLeaf(h: Hitable, tmin: real, tmax: real, r: Ray, env: Env)
    requires IsSqrt(env.sqrt) && Intersect(h, tmin, tmax, r, env).Some?
    ensures exists i :: 0 <= i < |Leaves(h)| && Intersect(Leaves(h)[i], tmin, tmax, r, env) == Intersect(h, tmin, tmax, r, env)
    decreases h
  {
    match h
    case Node(n) =>
      if Intersect(h, tmin, tmax, r, env) == Intersect(n.left, tmin, tmax, r, env) {
        HitFromLeaf(n.left, tmin, tmax, r, env);
        var i :| 0 <= i < |Leaves(n.left)| &&
                 Intersect(Leaves(n.left)[i], tmin, tmax, r, env) == Intersect(n.left, tmin, tmax, r, env);
        assert Leaves(h)[i] == Leaves(n.left)[i];
      } else {
        var x := n.right.value;
        HitFromLeaf(x, tmin, tmax, r, env);
        var i :| 0 <= i < |Leaves(x)| && Intersect(Leaves(x)[i], tmin, tmax, r, env) == Intersect(x, tmin, tmax, r, env);
        assert Leaves(h)[|Leaves(n.left)| + i] == Leaves(x)[i];
      }
    case _ =>
      assert Leaves(h)[0] == h;
  }

  /** Every box of the tree bounds what is below it: each BVH node's cached
      box contains the boxes of its children (which have boxes), and the
      same holds inside every child and every medium's boundary. */
  predicate WellBoxed(h: Hitable)
    decreases h
  {
    match h
    case SphereShape(_) => true
    case TriangleShape(_) => true
    case Medium(m) => WellBoxed(m.boundary)
    case Node(n) =>
      HasBox(n.left) && WellBoxed(n.left) && Contains(n.bbox, BoundingBox(n.left)) &&
      (match n.right
       case Some(x) => HasBox(x) && WellBoxed(x) && Contains(n.bbox, BoundingBox(x))
       case None => true)
  }

  /** Every hit lies strictly inside the object's bounding box: a triangle's
      hit is a point of the triangle; a medium's hit lies between the two
      crossings of its boundary; a node's hit is a child's hit, inside the
      child's box and so inside the node's. */
  lemma {:induction false} HitInBox(h: Hitable, tmin: real, tmax: real, r: Ray, env: Env)
    requires IsSqrt(env.sqrt) && FreePathsNonNegative(env)
    requires HasBox(h) && WellBoxed(h) && Intersect(h, tmin, tmax, r, env).Some?
    ensures StrictlyInside(BoundingBox(h), Intersect(h, tmin, tmax, r, env).value.p)
    decreases h
  {
    match h
    case TriangleShape(tri) =>
      TriangleHitInBox(tri, tmin, tmax, r);
    case Medium(m) =>
      var entry := Intersect(m.boundary, -BoundaryWindow, BoundaryWindow, r, env).value.t;
      var exit := Intersect(m.boundary, entry + ExitOffset, BoundaryWindow, r, env).value.t;
      HitInBox(m.boundary, -BoundaryWindow, BoundaryWindow, r, env);
      HitInBox(m.boundary, entry + ExitOffset, BoundaryWindow, r, env);
      MediumHitWithin(m, tmin, tmax, r, env);
      InsideBetween(BoundingBox(m.boundary), r, entry, exit, MediumHit(m, tmin, tmax, r, env).value.t);
    case Node(n) =>
      if Intersect(h, tmin, tmax, r, env) == Intersect(n.left, tmin, tmax, r, env) {
        HitInBox(n.left, tmin, tmax, r, env);
      } else {
        HitInBox(n.right.value, tmin, tmax, r, env);
      }
  }

  /** A medium's hit lies between the two crossings of its boundary: not
      before the entry crossing and not after the exit crossing. */
  lemma MediumHitWithin(m: ConstantMedium, tmin: real, tmax: real, r: Ray, env: Env)
    requires IsSqrt(env.sqrt) && FreePathsNonNegative(env) && MediumHit(m, tmin, tmax, r, env).Some?
    ensures var entry := Intersect(m.boundary, -BoundaryWindow, BoundaryWindow, r, env).value.t;
            var exit := Intersect(m.boundary, entry + ExitOffset, BoundaryWindow, r, env).value.t;
            entry <= MediumHit(m, tmin, tmax, r, env).value.t <= exit
  {
  }

  /** A node reports a hit whenever one of its children does, and one no
      farther: the child's hit lies inside the child's box and therefore
      inside the node's box, so the node's box test passes. */
  lemma {:induction false} ChildHitSeen(n: BvhNode, c: Hitable, tmin: real, tmax: real, r: Ray, env: Env)
    requires IsSqrt(env.sqrt) && FreePathsNonNegative(env) && WellBoxed(Node(n))
    requires c == n.left || n.right == Some(c)
    requires Intersect(c, tmin, tmax, r, env).Some?
    ensures BvhHit(n, tmin, tmax, r, env).Some?
    ensures BvhHit(n, tmin, tmax, r, env).value.t <= Intersect(c, tmin, tmax, r, env).value.t
  {
    HitInBox(c, tmin, tmax, r, env);
    InsideBoxHit(n.bbox, r, Intersect(c, tmin, tmax, r, env).value.t, tmin, tmax);
  }

  /** The traversal finds the nearest hit: in a tree whose boxes bound what
      is below them, the tree's hit is no farther than the hit of any leaf. */
  lemma {:induction false} NearestLeaf(h: Hitable, tmin: real, tmax: real, r: Ray, env: Env, i: nat)
    requires IsSqrt(env.sqrt) && FreePathsNonNegative(env) && WellBoxed(h)
    requires i < |Leaves(h)| && Intersect(Leaves(h)[i], tmin, tmax, r, env).Some?
    ensures Intersect(h, tmin, tmax, r, env).Some?
    ensures Intersect(h, tmin, tmax, r, env).value.t <= Intersect(Leaves(h)[i], tmin, tmax, r, env).value.t
    decreases h
  {
    match h
    case Node(n) =>
      var c, j;
      if i < |Leaves(n.left)| {
        c, j := n.left, i;
      } else {
        c, j := n.right.value, i - |Leaves(n.left)|;
      }
      assert Leaves(h)[i] == Leaves(c)[j];
      NearestLeaf(c, tmin, tmax, r, env, j);
      ChildHitSeen(n, c, tmin, tmax, r, env);
    case _ =>
      assert Leaves(h)[i] == h;
  }

  // ---------------------------------------------------------------------
  // Construction

  /** `(3.0 * x) as u32`: truncation toward zero, saturating at 0 and at
      `u32::MAX`.  A draw in `[0, 1)` gives 0, 1 or 2. */
  function Axis(x: real): (axis: nat)
    ensures 0.0 <= x < 1.0 ==> axis <= 2
    ensures 0.0 <= x < 1.0 ==> axis as real <= 3.0 * x < axis as real + 1.0
  {
    if 3.0 * x < 0.0 then 0
    else if 3.0 * x >= 4294967295.0 then 4294967295
    else (3.0 * x).Floor
  }

  /** The sort key on an axis: 0 is x, 1 is y, any other value is z. */
  function AxisMin(b: AABB, axis: nat): real {
    if axis == 0 then b.min.x else if axis == 1 then b.min.y else b.min.z
  }

  /** The key the source's comparator compares: the box minimum on the
      axis (0 for a shape without a box, which the construction never
      sorts). */
  function Key(h: Hitable, axis: nat): real {
    if HasBox(h) then AxisMin(BoundingBox(h), axis) else 0.0
  }

  predicate AllBoxed(s: seq<Hitable>) {
    forall i :: 0 <= i < |s| ==> HasBox(s[i])
  }

  /** `len / 2`, the length of the left part of a split. */
  function Half(count: nat): (h: nat)
    ensures h + h == count || h + h + 1 == count
  {
    count / 2
  }

  /** The length of the right part of a split. */
  function Rest(count: nat): (r: nat)
    ensures Half(count) + r == count
  {
    count - Half(count)
  }

  /** The objects a node built from `count` objects holds, in order: one
      child for a single object, both children for two, and the objects of
      the two sub-nodes, split `count / 2` and `count - count / 2`, for
      more (empty when the node lacks that shape). */
  function Items(n: BvhNode, count: nat): seq<Hitable>
    decreases count
  {
    if count <= 1 then [n.left]
    else if count == 2 then [n.left] + (match n.right case Some(x) => [x] case None => [])
    else
      match (n.left, n.right)
      case (Node(l), Some(Node(rn))) => Items(l, Half(count)) + Items(rn, Rest(count))
      case _ => []
  }

  /** A node built from `count` objects has the shape the construction
      gives it and caches, at every level, the box around its children:
      the child's box for one object, the union of the two boxes
      otherwise. */
  predicate Cached(n: BvhNode, count: nat)
    decreases count
  {
    HasBox(n.left) &&
    (count <= 1 <==> n.right.None?) &&
    (match n.right
     case None => n.bbox == BoundingBox(n.left)
     case Some(x) => HasBox(x) && n.bbox == SurroundingBox(BoundingBox(n.left), BoundingBox(x))) &&
    (count >= 3 ==>
       (n.left.Node? && n.right.Some? && n.right.value.Node? &&
        Cached(n.left.node, Half(count)) && Cached(n.right.value.node, Rest(count))))
  }

  /** The comparator of the sort on `axis`, as a key: the sort puts `a`
      before `b` exactly when `a`'s key is smaller. */
  function AxisKey(axis: nat): Hitable -> real {
    h => Key(h, axis)
  }

  /** The objects of the node are in order on the key: the one or two
      children in order, or every object of the left sub-node before every
      object of the right one. */
  predicate OrderedOn(n: BvhNode, count: nat, key: Hitable -> real) {
    if count <= 2 then SortedBy(Items(n, count), key)
    else
      n.left.Node? && n.right.Some? && n.right.value.Node? &&
      forall x, y :: x in Items(n.left.node, Half(count)) && y in Items(n.right.value.node, Rest(count)) ==>
        key(x) <= key(y)
  }

  /** `BvhNode::new`: draw the axis, sort the objects on it, and make a node
      of one object, of two, or of two sub-nodes over the halves.  The
      source recurses without end on an empty list, so the list must not be
      empty; every object must have a box.  `draw(next)` is the axis draw of
      this node, the draws of the left subtree follow, then those of the
      right, and `used` is the first draw not consumed. */
  method Build(list: seq<Hitable>, draw: nat -> real, next: nat) returns (node: BvhNode, used: nat)
    requires |list| > 0 && AllBoxed(list)
    ensures Cached(node, |list|)
    ensures multiset(Items(node, |list|)) == multiset(list)
    ensures OrderedOn(node, |list|, AxisKey(Axis(draw(next))))
    ensures |list| == 1 ==> node == BvhNode(list[0], None, BoundingBox(list[0]))
    ensures next < used
    decreases |list|, 1
  {
    var key := AxisKey(Axis(draw(next)));
    var sorted := SortedCopy(list, key);
    BoxedPermutation(list, sorted);
    if |sorted| == 1 {
      assert sorted[0] in multiset(list);
      assert sorted == [list[0]] == list;
      node, used := BvhNode(sorted[0], None, BoundingBox(sorted[0])), next + 1;
      assert Items(node, 1) == sorted;
    } else if |sorted| == 2 {
      node := BvhNode(sorted[0], Some(sorted[1]), SurroundingBox(BoundingBox(sorted[0]), BoundingBox(sorted[1])));
      used := next + 1;
      assert Items(node, 2) == [sorted[0], sorted[1]] == sorted;
    } else {
      node, used := BuildSplit(sorted, key, draw, next);
    }
  }

  /** The third case of `BvhNode::new`: `split_off(len / 2)` and a sub-node
      over each half. */
  method BuildSplit(sorted: seq<Hitable>, key: Hitable -> real, draw: nat -> real, next: nat) returns (node: BvhNode, used: nat)
    requires |sorted| >= 3 && AllBoxed(sorted) && SortedBy(sorted, key)
    ensures Cached(node, |sorted|)
    ensures multiset(Items(node, |sorted|)) == multiset(sorted)
    ensures OrderedOn(node, |sorted|, key)
    ensures next < used
    decreases |sorted|, 0
  {
    var count := |sorted|;
    var half := Half(count);
    var leftList, rightList := sorted[..half], sorted[half..];
    assert sorted == leftList + rightList;
    assert |leftList| == half && |rightList| == Rest(count);
    var l, k := Build(leftList, draw, next + 1);
    var rn, u := Build(rightList, draw, k);
    node := BvhNode(Node(l), Some(Node(rn)), SurroundingBox(l.bbox, rn.bbox));
    used := u;
    JoinCached(l, rn, node, count);
    JoinKeepsObjects(sorted, l, rn, node);
    JoinOrdered(sorted, key, l, rn, node);
  }

  /** A node over two sub-nodes built from the halves of `count` objects
      caches the union of their boxes. */
  lemma JoinCached(l: BvhNode, rn: BvhNode, node: BvhNode, count: nat)
    requires count >= 3 && Cached(l, Half(count)) && Cached(rn, Rest(count))
    requires node == BvhNode(Node(l), Some(Node(rn)), SurroundingBox(l.bbox, rn.bbox))
    ensures Cached(node, count)
  {
  }

  /** The objects of a node over two sub-nodes are theirs, left then right. */
  lemma JoinItems(l: BvhNode, rn: BvhNode, node: BvhNode, count: nat)
    requires count >= 3 && node == BvhNode(Node(l), Some(Node(rn)), SurroundingBox(l.bbox, rn.bbox))
    ensures Items(node, count) == Items(l, Half(count)) + Items(rn, Rest(count))
  {
  }

  /** The third case of `BvhNode::new` keeps the objects: sub-nodes holding
      the halves of the sorted list hold the list together. */
  lemma JoinKeepsObjects(sorted: seq<Hitable>, l: BvhNode, rn: BvhNode, node: BvhNode)
    requires |sorted| >= 3
    requires multiset(Items(l, Half(|sorted|))) == multiset(sorted[..Half(|sorted|)])
    requires multiset(Items(rn, Rest(|sorted|))) == multiset(sorted[Half(|sorted|)..])
    requires node == BvhNode(Node(l), Some(Node(rn)), SurroundingBox(l.bbox, rn.bbox))
    ensures multiset(Items(node, |sorted|)) == multiset(sorted)
  {
    JoinItems(l, rn, node, |sorted|);
    PermutedHalves(sorted, Half(|sorted|), Items(l, Half(|sorted|)), Items(rn, Rest(|sorted|)));
  }

  /** The third case of `BvhNode::new` splits on the axis: every object of
      the left sub-node has a key no larger than every object of the right. */
  lemma JoinOrdered(sorted: seq<Hitable>, key: Hitable -> real, l: BvhNode, rn: BvhNode, node: BvhNode)
    requires |sorted| >= 3 && SortedBy(sorted, key)
    requires multiset(Items(l, Half(|sorted|))) == multiset(sorted[..Half(|sorted|)])
    requires multiset(Items(rn, Rest(|sorted|))) == multiset(sorted[Half(|sorted|)..])
    requires node == BvhNode(Node(l), Some(Node(rn)), SurroundingBox(l.bbox, rn.bbox))
    ensures OrderedOn(node, |sorted|, key)
  {
    SplitOrdered(sorted, Half(|sorted|), key, Items(l, Half(|sorted|)), Items(rn, Rest(|sorted|)));
  }

  /** The sort of `list.sort_by(...)`, on a copy of the list. */
  method SortedCopy(list: seq<Hitable>, key: Hitable -> real) returns (sorted: seq<Hitable>)
    ensures SortedBy(sorted, key) && multiset(sorted) == multiset(list) && |sorted| == |list|
  {
    var a := new Hitable[|list|](i requires 0 <= i < |list| => list[i]);
    assert a[..] == list;
    SortBy(a, key);
    sorted := a[..];
  }

  /** A permutation of boxed objects is boxed. */
  lemma BoxedPermutation(s: seq<Hitable>, t: seq<Hitable>)
    requires AllBoxed(s) && multiset(s) == multiset(t)
    ensures AllBoxed(t)
  {
    forall i | 0 <= i < |t|
      ensures HasBox(t[i])
    {
      assert t[i] in multiset(t);
    }
  }

  /** Splitting a sorted sequence: whatever is a permutation of the first
      part has keys no larger than whatever is a permutation of the rest. */
  lemma SplitOrdered(s: seq<Hitable>, half: nat, key: Hitable -> real, left: seq<Hitable>, right: seq<Hitable>)
    requires half <= |s| && SortedBy(s, key)
    requires multiset(left) == multiset(s[..half]) && multiset(right) == multiset(s[half..])
    ensures forall x, y :: x in left && y in right ==> key(x) <= key(y)
  {
    forall x, y | x in left && y in right
      ensures key(x) <= key(y)
    {
      assert x in multiset(s[..half]);
      assert y in multiset(s[half..]);
      var i :| 0 <= i < half && s[i] == x;
      var j :| half <= j < |s| && s[j] == y;
    }
  }

  /** Every object a built node holds has a box, and the node's cached box
      contains it. */
  lemma {:induction false} ItemsInBox(n: BvhNode, count: nat, x: Hitable)
    requires Cached(n, count) && x in Items(n, count)
    ensures HasBox(x) && Contains(n.bbox, BoundingBox(x))
    decreases count
  {
    if count >= 3 {
      var l, rn := n.left.node, n.right.value.node;
      if x in Items(l, Half(count)) {
        ItemsInBox(l, Half(count), x);
      } else {
        ItemsInBox(rn, Rest(count), x);
      }
    }
  }

  /** A node built from objects whose own boxes bound what is below them
      bounds what is below it. */
  lemma {:induction false} CachedWellBoxed(n: BvhNode, count: nat)
    requires Cached(n, count) && forall x :: x in Items(n, count) ==> WellBoxed(x)
    ensures WellBoxed(Node(n))
    decreases count
  {
    if count <= 1 {
      assert n.left in Items(n, count);
    } else if count == 2 {
      assert n.left in Items(n, count) && n.right.value in Items(n, count);
    } else {
      var l, rn := n.left.node, n.right.value.node;
      assert Items(n, count) == Items(l, Half(count)) + Items(rn, Rest(count));
      CachedWellBoxed(l, Half(count));
      CachedWellBoxed(rn, Rest(count));
    }
  }

  /** The tree that `BvhNode::new` builds reports a hit whenever one of its
      objects is hit, and its hit is no farther than that object's, provided
      the objects' own boxes bound what is below them. */
  lemma {:induction false} NearestItem(n: BvhNode, count: nat, x: Hitable, tmin: real, tmax: real, r: Ray, env: Env)
    requires IsSqrt(env.sqrt) && FreePathsNonNegative(env)
    requires Cached(n, count) && forall y :: y in Items(n, count) ==> WellBoxed(y)
    requires x in Items(n, count) && Intersect(x, tmin, tmax, r, env).Some?
    ensures BvhHit(n, tmin, tmax, r, env).Some?
    ensures BvhHit(n, tmin, tmax, r, env).value.t <= Intersect(x, tmin, tmax, r, env).value.t
    decreases count
  {
    CachedWellBoxed(n, count);
    if count <= 2 {
      assert x == n.left || n.right == Some(x);
      ChildHitSeen(n, x, tmin, tmax, r, env);
    } else {
      var l, rn := n.left.node, n.right.value.node;
      assert Items(n, count) == Items(l, Half(count)) + Items(rn, Rest(count));
      if x in Items(l, Half(count)) {
        NearestItem(l, Half(count), x, tmin, tmax, r, env);
        ChildHitSeen(n, n.left, tmin, tmax, r, env);
      } else {
        NearestItem(rn, Rest(count), x, tmin, tmax, r, env);
        ChildHitSeen(n, n.right.value, tmin, tmax, r, env);
      }
    }
  }

  /** The cached box is the tightest: any box containing the boxes of all
      the objects of a built node contains the node's box. */
  lemma {:induction false} TightestBox(n: BvhNode, count: nat, b: AABB)
    requires Cached(n, count)
    requires forall x :: x in Items(n, count) ==> HasBox(x) && Contains(b, BoundingBox(x))
    ensures Contains(b, n.bbox)
    decreases count
  {
    if count >= 3 {
      var l, rn := n.left.node, n.right.value.node;
      TightestBox(l, Half(count), b);
      TightestBox(rn, Rest(count), b);
    } else {
      assert n.left in Items(n, count);
      if n.right.Some? {
        assert n.right.value in Items(n, count);
      }
    }
  }
}

