/** The hit record shared by every shape (src/hitable.rs, `Hit`): the ray
    parameter of the intersection, the point, the surface normal there and
    the material of the surface.  The source borrows the material; the
    model stores the material value itself. */
module Hits {
  import opened Vectors
  import opened Materials

  datatype Hit = Hit(t: real, p: Vec3, normal: Vec3, material: Material)
}
