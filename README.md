# A verified model of the core of a small Rust path tracer

This project models, in Dafny, the geometric and shading core of
`rust-pathtracer-demo`: 3-vectors, rays, axis-aligned bounding boxes, the
sphere and triangle intersection tests, a constant-density participating
medium, the bounding volume hierarchy (BVH) that organises the scene, and the
materials and textures that decide how a ray scatters.

All arithmetic is over `real`. Wherever the source calls a transcendental
function or a random number generator, that call is a parameter of the model:

- the square root (`sqrt`, with the ghost requirement `IsSqrt`),
- the sine of the checker texture (`sin`),
- the medium's sampled free path `-ln(random) / density` (`Env.freePath`),
- the axis draw of each BVH node (a stream `draw: nat -> real`),
- the unit-sphere samples and the Dielectric coin (`sample`, `choice`, and
  the candidate list of `RandomInUnitSphere`).

One module per source file:

- `Vectors` (vec3.dfy)
- `Rays` (ray.dfy)
- `Boxes` (aabb.dfy)
- `SphereGeometry` and `Spheres` (sphere.dfy)
- `Triangles` (triangle.dfy)
- `Textures` (texture.dfy)
- `Materials` (material.dfy)
- `Hits` and `Hitables` (hit.dfy, hitable.dfy)

`Sorting` (sort.dfy) stands in for the standard library's `sort_by`. The
`Hitable` trait object becomes a closed datatype over the four shapes, and
`Material` and `Texture` become closed datatypes too. Dynamic dispatch is
therefore a `match`.

The code's slab test differs from the usual narrowing test in one place. The
model follows the code:

- `AABB::hit` calls `check_one_direction` once per axis, each time with the
  caller's own `t_min`/`t_max`. The narrowed interval of one axis is not passed
  on to the next (the helper takes its bounds by value and shadows them).
- So the test accepts rays that pass every slab at *different* parameters and
  never enter the box.
- `BoxHit` models the code. `ThreadedBoxHit` is the narrowing test.
  `ThreadedImpliesBoxHit` proves the code's test is weaker.
  `PerAxisTestAcceptsAMiss` exhibits a ray that misses the box and is still
  accepted.
- Because the test only prunes less, the traversal's result is unaffected.
  A ray that is strictly inside a box at some parameter of the window passes
  the code's test (`InsideBoxHit`), every hit lies strictly inside its
  object's box (`HitInBox`), and so the tree reports a hit no farther than
  that of any leaf (`NearestLeaf`) or of any object it was built from
  (`NearestItem`).

The imperative parts of the source are methods:

- `ConstantMedium::hit` reassigns `hit1.t`/`hit2.t` step by step
  (`MediumHitSteps`, `InsideSteps`, `FreePathSteps`).
- `BvhNode::new` copies the list into an array and sorts it in place, then
  recurses on the halves (`Build`, `SortedCopy`, `Sorting.SortBy`).
- `normalize(&mut self)` works on a mutable cell (`Vectors.Vec3Cell`).
- `check_one_direction` swaps its crossings in place.
- `random_in_unit_sphere` is a rejection loop.

Each method is proved equal to a function, or proved to establish the stated
properties directly.

## Model

| member | source | states |
|---|---|---|
| Vectors.AddSubCancel | src/vec3.rs:88-110 | subtraction undoes addition and addition undoes subtraction |
| Vectors.MulScalar | src/vec3.rs:112-122 | `v * 1 == v` and `v * 0 == 0` |
| Vectors.SquaredLengthScaled | src/vec3.rs:112-122 | scaling by `f` multiplies the squared length by `f^2` |
| Vectors.ScalarMul | src/vec3.rs:124-130 | `1 * v == v` and `0 * v == 0` |
| Vectors.ScalarMulCommutes | src/vec3.rs:124-130 | `f * v` is the same vector as `v * f` |
| Vectors.MulVec | src/vec3.rs:132-142 | the component-wise product has `(1,1,1)` as unit and `0` as zero |
| Vectors.DivScalar | src/vec3.rs:144-154 | multiplying `v / f` by `f` gives `v` back, for `f != 0` |
| Vectors.SquaredLength | src/vec3.rs:34-36 | the squared length is the dot product of `v` with itself |
| Vectors.SquaredLengthFacts | src/vec3.rs:34-36 | a squared length is non-negative and zero only for the zero vector |
| Vectors.DotSymmetric | src/vec3.rs:51-53 | `dot` is symmetric |
| Vectors.DotAdd | src/vec3.rs:51-53 | `dot` distributes over `+` |
| Vectors.DotScaled | src/vec3.rs:51-53 | `dot` of a scaled vector is the scaled `dot` |
| Vectors.DotWithZero | src/vec3.rs:51-53 | `dot` with the zero vector is zero |
| Vectors.CauchySchwarz | src/vec3.rs:51-53 | `(a.b)^2 <= |a|^2 |b|^2` |
| Vectors.CrossSelf | src/vec3.rs:54-60 | `a x a == 0` |
| Vectors.CrossOrthogonal | src/vec3.rs:54-60 | `a x b` is orthogonal to `a` and to `b` |
| Vectors.CrossScaled | src/vec3.rs:54-60 | `cross` is homogeneous in its first argument |
| Vectors.CrossSubScaled | src/vec3.rs:54-60 | `(a - k n) x n == a x n` |
| Vectors.SquaredLengthSubScaled | src/vec3.rs:34-36 | `|v - k n|^2` expands to `|v|^2 - 2k v.n + k^2 |n|^2` |
| Vectors.ClampComponent | src/vec3.rs:61-68 | the result lies in `[lo, hi]`; a value inside is kept; a value above `hi` gives `hi`; a value below `lo` and not above `hi` gives `lo` |
| Vectors.Clamp | src/vec3.rs:61-85 | with a well-formed box the result lies in it; a point inside is kept; on each axis a component above `max` gives `max`, and one below `min` and not above `max` gives `min` |
| Vectors.ClampIdempotent | src/vec3.rs:61-85 | clamping twice to the same box is clamping once |
| Vectors.SqrtFacts | src/vec3.rs:37-39 | the square root parameter is non-negative, squares back, and is zero only at zero |
| Vectors.Length | src/vec3.rs:37-39 | the length is non-negative, squares to the squared length, and is zero exactly for the zero vector |
| Vectors.Unit | src/vec3.rs:46-50 | the unit vector has squared length 1 and times the length gives `v` back |
| Vectors.Vec3Cell.Normalize | src/vec3.rs:40-45 | dividing each component in place by the length taken first leaves the unit vector of the old value |
| Vectors.UnitVector | src/vec3.rs:46-50 | copying and normalising the copy returns `Unit(v)`, of squared length 1 |
| Rays.PointAt | src/hitable.rs:74-77 | `point_at_parameter(t) - origin == t * direction`; at `t = 0` it is the origin |
| Boxes.Min | src/aabb.rs:34-38 | `f32::min` is a lower bound equal to one argument |
| Boxes.Max | src/aabb.rs:34-38 | `f32::max` is an upper bound equal to one argument |
| Boxes.SurroundingBox | src/aabb.rs:34-38 | the union contains both boxes, is contained in every box containing both, and keeps `min <= max` |
| Boxes.SurroundingCommutes | src/aabb.rs:34-38 | the union is commutative |
| Boxes.SurroundingIdempotent | src/aabb.rs:34-38 | the union of a box with itself is the box |
| Boxes.CrossingsOrdered | src/aabb.rs:11-18 | after the swap the entry crossing precedes the exit crossing |
| Boxes.CrossingsWiden | src/aabb.rs:11-18 | a wider slab moves the entry earlier and the exit later |
| Boxes.SlabCheckEmptyInterval | src/aabb.rs:28-30 | an empty caller interval always fails the check |
| Boxes.CheckOneDirection | src/aabb.rs:11-32 | the in-place swap and clamps decide exactly `SlabCheck`; an empty interval gives `false` |
| Boxes.BoxHit | src/aabb.rs:56-67 | the box test passes exactly when all three per-axis checks pass against the caller's interval, never for an empty interval |
| Boxes.SlabMonotone | src/aabb.rs:11-32 | widening the slab never turns a passing check into a failing one |
| Boxes.BoxHitMonotone | src/aabb.rs:56-67 | a ray passing the test of a box passes the test of every box containing it |
| Boxes.NarrowSlabShrinks | src/aabb.rs:18-27 | the narrowing step only shrinks the interval and implies the per-axis check |
| Boxes.SlabWiderInterval | src/aabb.rs:18-30 | a check passing on a sub-interval passes on the whole interval |
| Boxes.ThreadedImpliesBoxHit | src/aabb.rs:56-67 | whatever the narrowing test accepts, the source's test accepts |
| Boxes.SlabAroundPoint | src/aabb.rs:11-32 | a ray strictly inside the slab at a parameter of `[tmin, tmax)` passes the per-axis check |
| Boxes.InsideBoxHit | src/aabb.rs:56-67 | a ray strictly inside the box at a parameter of `[tmin, tmax)` passes the box test |
| Boxes.InsideBetween | src/aabb.rs:56-67 | a ray strictly inside the box at two parameters is strictly inside it at every parameter between them |
| Boxes.PerAxisTestAcceptsAMiss | src/aabb.rs:56-67 | a ray that never enters the box is accepted by the source's test and rejected by the narrowing test |
| SphereGeometry.ZeroCoefficients | src/sphere.rs:26-29 | a zero `a` and `b` give a zero discriminant |
| SphereGeometry.QuadraticAtRoot | src/sphere.rs:31-40 | both candidate parameters solve `a t^2 + 2 b t + c = 0` |
| SphereGeometry.OnlyRoots | src/sphere.rs:31-40 | every solution is one of the two candidates |
| SphereGeometry.NearRootFirst | src/sphere.rs:31-40 | the root tried first is not beyond the second |
| SphereGeometry.FlatRayDiscriminant | src/sphere.rs:25-29 | a zero direction gives a zero discriminant |
| SphereGeometry.PointSphereDiscriminant | src/sphere.rs:25-29 | a zero radius gives no positive discriminant |
| SphereGeometry.PositiveDiscriminant | src/sphere.rs:29-30 | a positive discriminant needs a moving ray and a non-zero radius |
| SphereGeometry.SphereEquation | src/sphere.rs:25-28 | the quadratic at `t` is the squared distance of the point to the centre minus `radius^2` |
| SphereGeometry.RootOnSphere | src/sphere.rs:31-45 | either root lies on the sphere |
| SphereGeometry.NormalIsUnit | src/sphere.rs:36 | `(p - center) / radius` is a unit vector on the sphere |
| Spheres.HitAt | src/sphere.rs:33-38 | the record holds `t`, `point_at_parameter(t)`, the material and a normal with `normal * radius == p - center` |
| Spheres.SphereHit | src/sphere.rs:24-51 | no hit without a positive discriminant; a hit is strictly inside the window, at one of the two roots, the nearer one whenever it is in the window |
| Spheres.SphereHitOnSurface | src/sphere.rs:24-51 | a reported hit lies on the sphere and has a unit normal |
| Spheres.SphereHitNearest | src/sphere.rs:24-51 | any crossing of the sphere inside the window is found, and the reported one is no farther |
| Triangles.Quotient | src/triangle.rs:41-42 | `f * n` with `f = 1 / a` is the number that `a` times gives `n` |
| Triangles.FacingNormal | src/triangle.rs:56-60 | the stored normal, negated when needed, faces the incoming ray |
| Triangles.TriangleHit | src/triangle.rs:29-70 | a hit exactly when the ray is not parallel, `u >= 0`, `v >= 0`, `u + v <= 1` and `t > EPSILON`, `t_min < t < t_max`; it is at `t`, on the ray, with the facing normal |
| Triangles.TriangleHitOnTriangle | src/triangle.rs:29-70 | a reported hit is the point `p1 + u edge1 + v edge2` with barycentric coordinates in the triangle |
| Triangles.RayMeetsPlane | src/triangle.rs:41-54 | for a non-parallel ray `origin + t d == p1 + u edge1 + v edge2` (Cramer's rule) |
| Triangles.PlanePoint | src/triangle.rs:41-54 | the per-axis equations give the point identity |
| Triangles.PlaneSolution | src/triangle.rs:34-54 | Cramer's rule on the source's vectors `s`, `h`, `q` |
| Triangles.CramerRule | src/triangle.rs:34-54 | Cramer's rule on components |
| Triangles.ParallelMisses | src/triangle.rs:37-39 | a determinant within `EPSILON` of zero gives no hit |
| Triangles.TriangleBox | src/triangle.rs:71-82 | the padded box holds every vertex strictly inside, is non-degenerate, and each face is `delta` beyond the extreme vertex coordinate on its axis (beyond one vertex exactly, and at least `delta` beyond all three) |
| Triangles.InsideTriangleBox | src/triangle.rs:71-82 | every point `p1 + u edge1 + v edge2` of the triangle is strictly inside the box |
| Triangles.TriangleHitInBox | src/triangle.rs:29-82 | a reported hit lies strictly inside the triangle's bounding box |
| Textures.Value | src/texture.rs:25-48 | the colour is one of the constant colours stored in the texture tree |
| Textures.ConstantIgnoresInputs | src/texture.rs:25-29 | a constant texture gives its colour whatever the inputs |
| Textures.CheckerChooses | src/texture.rs:40-48 | a negative product of sines picks `odd`, otherwise `even`, with the inputs unchanged |
| Textures.CheckerOfConstants | src/texture.rs:40-48 | a checker of two constants gives one of the two colours |
| Textures.ValueIgnoresUV | src/texture.rs:25-48 | no texture of the core reads `u` or `v` |
| Materials.CandidateInCube | src/material.rs:81 | draws in `[0, 1)` give a candidate in the cube `[-1, 1)^3` |
| Materials.RandomInUnitSphere | src/material.rs:79-86 | the first candidate strictly inside the unit ball is returned, every earlier one was outside; none when no candidate qualifies |
| Materials.ReflectNormalComponent | src/material.rs:88-90 | about a unit normal reflection negates the normal component |
| Materials.ReflectKeepsTangent | src/material.rs:88-90 | reflection keeps the tangential part |
| Materials.ReflectKeepsLength | src/material.rs:88-90 | about a unit normal reflection keeps the length |
| Materials.ReflectTwice | src/material.rs:88-90 | about a unit normal, reflecting twice gives the vector back |
| Materials.Schlick | src/material.rs:92-96 | head-on gives `r0`, grazing gives 1, and for admissible inputs the result lies in `[r0, 1]` |
| Materials.Blend | src/material.rs:95 | `r0 + (1 - r0) p` at `p = 0`, `p = 1` and in between |
| Materials.Pow5Facts | src/material.rs:95 | `x^5` at 0, 1 and within `[0, 1]` |
| Materials.R0Bounds | src/material.rs:93-94 | `r0` lies in `[0, 1]` for a non-negative index, and is 0 for index 1 |
| Materials.Refract | src/material.rs:103-118 | refraction happens exactly when the discriminant is positive; otherwise the direction is zero |
| Materials.RefractSnell | src/material.rs:103-112 | Snell's law: the refracted direction's tangential part is `ni_over_nt` times the incoming unit vector's |
| Materials.BendSnell | src/material.rs:110 | Snell's law for the bend formula |
| Materials.RefractThroughSurface | src/material.rs:103-112 | about a unit normal the refracted direction is a unit vector on the far side |
| Materials.BendThroughSurface | src/material.rs:110 | the bend formula's normal component is `-sqrt(disc)` and its length is 1 |
| Materials.TangentialPart | src/material.rs:110 | `uv - n (uv . n)` is orthogonal to `n` |
| Materials.OffNormal | src/material.rs:110 | normal component and length of `k w - s n` |
| Materials.RefractIntoDenser | src/material.rs:103-112 | into a denser medium a ray always refracts |
| Materials.DenserDiscriminant | src/material.rs:106 | the discriminant is positive for `ni_over_nt^2 < 1` |
| Materials.RefractMatchedIndices | src/material.rs:103-112 | with equal indices an arriving ray passes straight through |
| Materials.BendMatched | src/material.rs:110 | with `ni_over_nt = 1` the bend is none |
| Materials.UnitSign | src/material.rs:104-105 | the unit vector is on the same side of a plane as `v` |
| Materials.LambertianScatter | src/material.rs:121-127 | scatters from the point towards `normal + sample` with the albedo at the point |
| Materials.LambertianLeavesSurface | src/material.rs:121-127 | with a unit normal and a sample in the unit ball the ray leaves the surface |
| Materials.MetalScatter | src/material.rs:134-146 | scatters exactly when the fuzzed mirror direction leaves the surface, with the albedo at the point |
| Materials.MirrorScatters | src/material.rs:134-146 | a perfect mirror scatters exactly the arriving rays, in a unit direction |
| Materials.Orient | src/material.rs:161-169 | a leaving ray flips the normal and uses `ref_idx`, an arriving one `1 / ref_idx`; the normal faces the ray, and a positive index gives a non-negative cosine |
| Materials.ReflectProb | src/material.rs:157-175 | 1 under total internal reflection; for a ray arriving against a unit normal with a positive index, a probability in `[r0, 1]`; `r0` for a head-on arriving ray |
| Materials.ArrivingCosine | src/material.rs:166-168 | an arriving ray's cosine `-(d . n) / length(d)` is at most 1 for a unit normal |
| Materials.LeavingHeadOn | src/material.rs:161-175 | a leaving ray's cosine `ref_idx (d . n) / length(d)` can exceed 1: head-on out of index 2 it is 2, the ray refracts and its reflection probability is `-7/9` |
| Materials.DielectricScatter | src/material.rs:153-187 | always scatters with white attenuation; the reflected ray when the draw is below the reflection probability, otherwise the refracted one |
| Materials.DielectricTransmits | src/material.rs:170-181 | a transmitted ray, about a unit normal, crosses to the far side with unit direction |
| Materials.IsotropicScatter | src/material.rs:194-199 | scatters from the point in the sampled direction with the albedo at the point |
| Materials.Scatter | src/material.rs:120-211 | dispatch: only Metal (by the surface test) and DiffuseLight decline; Dielectric attenuates by white |
| Materials.Emitted | src/material.rs:128-130 | only DiffuseLight emits, its texture's colour; everything else emits black |
| Materials.EmitOrScatter | src/material.rs:120-211 | a material that emits absorbs, and a material that scatters emits nothing |
| Hitables.NewMediumFacts | src/hitable.rs:37-43 | the medium's material is Isotropic over the texture, and its box is its boundary's |
| Hitables.Intersect | src/hitable.rs:19-21 | every hit lies on the ray at its parameter and, for non-negative free paths, in `[t_min, t_max)` |
| Hitables.Closer | src/hitable.rs:101-117 | some hit iff a child hit; the left one only when strictly nearer, so ties go right; with both, the minimum parameter |
| Hitables.BvhHit | src/hitable.rs:92-121 | a missed box gives `None`; otherwise the nearer child hit |
| Hitables.RightHit | src/hitable.rs:97-100 | no right child gives no right hit |
| Hitables.MediumHit | src/hitable.rs:47-84 | a hit needs the entry query over `(-1000, 1000)` and the exit query from the unclamped entry plus `0.0001`, then is the interval logic on their parameters |
| Hitables.InsideHit | src/hitable.rs:55-79 | an empty clamped interval gives `None`; otherwise the free-path step from `max(entry, t_min, 0)`; normal `(1,0,0)`, the medium's material, and `max(t_min, 0) <= t < min(exit, t_max)` |
| Hitables.FreePathHit | src/hitable.rs:68-79 | the hit is on the ray, has normal `(1,0,0)` and the medium's material, and lies in `[start, exit)` |
| Hitables.FreePathHitWhen | src/hitable.rs:68-72 | the medium scatters exactly when the ray moves and the free path is shorter than the distance inside |
| Hitables.FreePathHitDistance | src/hitable.rs:73 | the hit is the free path away from the clamped entry, measured along the ray |
| Hitables.FreePathStep | src/hitable.rs:72-73 | a free path shorter than the distance inside gives a parameter before the exit, exactly the free path along the ray, and not before the start |
| Hitables.MediumHitSteps | src/hitable.rs:47-54 | the two boundary queries and the steps below compute `MediumHit` |
| Hitables.InsideSteps | src/hitable.rs:55-66 | clamping `hit1.t` and `hit2.t` in place computes `InsideHit` |
| Hitables.FreePathSteps | src/hitable.rs:68-83 | the distance, the sampled free path and the hit computed in sequence are `FreePathHit` |
| Hitables.NewMediumHit | src/hitable.rs:37-43 | a hit of a new medium carries Isotropic over its texture and the normal `(1,0,0)` |
| Hitables.Leaves | src/hitable.rs:30-34 | the leaves of a tree contain no BVH node |
| Hitables.HitFromLeaf | src/hitable.rs:92-121 | every hit of a tree is the hit of one of its leaves |
| Hitables.HitInBox | src/hitable.rs:47-124 | in a tree whose boxes bound what is below them, every hit of a triangle, medium or node lies strictly inside its bounding box |
| Hitables.MediumHitWithin | src/hitable.rs:47-84 | a medium's hit lies between the entry and exit crossings of its boundary |
| Hitables.ChildHitSeen | src/hitable.rs:92-121 | in such a tree a node reports a hit whenever a child does, no farther than the child's |
| Hitables.NearestLeaf | src/hitable.rs:92-121 | in such a tree the traversal reports a hit no farther than any leaf's hit: no box test prunes a nearer one |
| Hitables.Axis | src/hitable.rs:129 | `(3.0 * x) as u32` saturates and truncates; a draw in `[0, 1)` gives 0, 1 or 2 with `axis <= 3x < axis + 1` |
| Hitables.Half | src/hitable.rs:186-187 | `len / 2` is half of `len`, rounded down |
| Hitables.Rest | src/hitable.rs:186-187 | the two parts of the split add up to `len` |
| Sorting.SortBy | src/hitable.rs:132-165 | `sort_by` with a key comparator leaves a permutation of the list with non-decreasing keys |
| Sorting.InsertLast | src/hitable.rs:132-165 | one insertion pass extends the sorted prefix by one and keeps the multiset |
| Sorting.SwapStep | src/hitable.rs:132-165 | an adjacent swap keeps the multiset and moves the out-of-place element one step left |
| Sorting.InsertDone | src/hitable.rs:132-165 | when the moving element stops, the prefix is sorted |
| Sorting.PermutedHalves | src/hitable.rs:186-189 | permutations of the two halves together are a permutation of the list |
| Hitables.SortedCopy | src/hitable.rs:132-165 | the sorted copy is a permutation of the list with non-decreasing keys |
| Hitables.Build | src/hitable.rs:128-198 | every node caches the union of its children's boxes and has the source's shape; its objects are exactly the list's; one object gives `(it, None, its box)`; the objects are ordered on the sampled axis (both children for two, left half before right half for more); draws are consumed |
| Hitables.BuildSplit | src/hitable.rs:185-197 | the split at `len / 2` yields sub-nodes over the sorted halves and their box union |
| Hitables.JoinCached | src/hitable.rs:190-196 | a node over two cached sub-nodes caches their union |
| Hitables.JoinItems | src/hitable.rs:187-196 | the objects of a split node are the left sub-node's followed by the right's |
| Hitables.JoinKeepsObjects | src/hitable.rs:187-189 | the split keeps the objects |
| Hitables.JoinOrdered | src/hitable.rs:187-189 | every object of the left half has a key no larger than every object of the right half |
| Hitables.BoxedPermutation | src/hitable.rs:132-165 | sorting keeps every object boxed |
| Hitables.SplitOrdered | src/hitable.rs:187 | the prefix of a sorted list has keys no larger than its suffix |
| Hitables.ItemsInBox | src/hitable.rs:122-124 | every object of a built node has a box that the node's box contains |
| Hitables.CachedWellBoxed | src/hitable.rs:128-198 | a built node over objects whose boxes bound what is below them bounds what is below it |
| Hitables.NearestItem | src/hitable.rs:92-198 | the tree `BvhNode::new` builds reports a hit no farther than that of any object it was built from |
| Hitables.TightestBox | src/hitable.rs:122-124 | a box containing every object's box contains the node's box |

## Left out

- `main.rs` (scene set-up, the sampling loop, the image output) and
  `camera.rs` are not part of this model. Neither is the path integrator that
  combines `emitted` and `scatter` along a path.
- `src/ray.rs` is not part of this model. `Ray` and `point_at_parameter` are
  reconstructed from their uses as `origin + t * direction`.
- f32 behaviour (rounding, infinities, NaN) is left out; the model computes
  over exact reals. Three consequences:
  - the slab test with a zero direction component is modelled as IEEE
    behaves (±∞ crossings);
  - division by zero (a zero vector's unit vector, `ref_idx` of 0 or −1) is a
    precondition;
  - the medium with a zero-length direction and a negative free path reports
    no hit, where f32 produces `t = −∞`.
- Randomness is a parameter, so no statement is made about distributions. A
  medium's free path is modelled as one value per density within one
  traversal.
- `RandomInUnitSphere` takes a finite list of candidate draws, so the source's
  unbounded loop is modelled up to the supplied draws.
- The sphere has no bounding box in the source, so `HasBox` is false for it,
  and the construction needs every object to have a box.
- Materials.ReflectProb: the bound `r0 <= p <= 1` is stated only for rays
  arriving against a unit normal. For a leaving ray the source's cosine
  `ref_idx (d . n) / length(d)` can exceed 1, and the value is then not a
  probability; `LeavingHeadOn` exhibits this. The model keeps the code as
  written.
- Sorting.SortBy: stability is not stated. The comparator of
  `BvhNode::new` answers `Less` exactly when the first key is smaller, so the
  standard library's stable sort sees the strict order `key(a) < key(b)`, and
  every stable sort, this insertion sort included (it moves an element left
  only past strictly larger keys), gives the same result. Only the
  sorted-permutation property is claimed.
- Hitables.Build: for two objects, only the order on the axis is stated, not
  which of two equal-key objects comes first. For more than two objects,
  the ordering is stated at the node itself; each sub-node is ordered on its
  own draw.
- Hitables.NearestLeaf: the nearest-hit property is proved for trees in
  which every box bounds what is below it (`WellBoxed`) and free paths are not
  negative. A hand-made node whose cached box is too small can prune a real
  hit. `BvhNode::new` builds such trees whenever its objects are such
  (`CachedWellBoxed`, `NearestItem`).
- Hitables.Build: the empty list is excluded, because the source recurses
  without end on it.
- Hitables.Intersect: the window is `[t_min, t_max)`, not open. A medium hit
  can sit at `t_min` when the clamped entry is `t_min` and the free path is
  zero.
- Ownership, borrowing, `Box`/`Sync` and threads have no counterpart. The hit
  record stores the material value instead of a borrowed reference.
