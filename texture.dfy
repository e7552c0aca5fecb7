/** Textures (src/texture.rs): a constant colour, and a 3-D checker pattern
    that picks one of two sub-textures from the sign of a product of sines.
    The sine function is a parameter `sin`; only the sign of the product
    matters to the choice. */
module Textures {
  import opened Vectors

  datatype Texture =
    | ConstantTexture(color: Vec3)
    | CheckerTexture(odd: Texture, even: Texture)

  /** The checker's `sines` value at point `p`. */
  function Sines(p: Vec3, sin: real -> real): real {
    sin(10.0 * p.x) * sin(10.0 * p.y) * sin(10.0 * p.z)
  }

  /** The colours stored in the constant textures of a texture tree. */
  function Colors(t: Texture): set<Vec3> {
    match t
    case ConstantTexture(c) => {c}
    case CheckerTexture(odd, even) => Colors(odd) + Colors(even)
  }

  /** `Texture::value`.  Whatever the point, the result is one of the
      colours stored in the tree: a checker only ever delegates. */
  function Value(t: Texture, u: real, v: real, p: Vec3, sin: real -> real): (c: Vec3)
    ensures c in Colors(t)
  {
    match t
    case ConstantTexture(color) => color
    case CheckerTexture(odd, even) =>
      if Sines(p, sin) < 0.0 then Value(odd, u, v, p, sin) else Value(even, u, v, p, sin)
  }

  /** `ConstantTexture::value` returns its colour whatever `u`, `v` and `p` are. */
  lemma ConstantIgnoresInputs(color: Vec3, u: real, v: real, p: Vec3, u2: real, v2: real, p2: Vec3,
                              sin: real -> real)
    ensures Value(ConstantTexture(color), u, v, p, sin) == color
    ensures Value(ConstantTexture(color), u, v, p, sin) == Value(ConstantTexture(color), u2, v2, p2, sin)
  {
  }

  /** `CheckerTexture::value` delegates, with `u`, `v` and `p` unchanged, to
      `odd` when the sine product is negative and to `even` when it is zero
      or positive. */
  lemma CheckerChooses(odd: Texture, even: Texture, u: real, v: real, p: Vec3, sin: real -> real)
    ensures Sines(p, sin) < 0.0 ==> Value(CheckerTexture(odd, even), u, v, p, sin) == Value(odd, u, v, p, sin)
    ensures Sines(p, sin) >= 0.0 ==> Value(CheckerTexture(odd, even), u, v, p, sin) == Value(even, u, v, p, sin)
  {
  }

  /** A checker over two constant textures gives one of their two colours. */
  lemma CheckerOfConstants(a: Vec3, b: Vec3, u: real, v: real, p: Vec3, sin: real -> real)
    ensures var c := Value(CheckerTexture(ConstantTexture(a), ConstantTexture(b)), u, v, p, sin);
            c == a || c == b
  {
  }

  /** No texture of the core reads `u` or `v`: only the point decides the colour. */
  lemma {:induction false} ValueIgnoresUV(t: Texture, u: real, v: real, u2: real, v2: real, p: Vec3,
                                          sin: real -> real)
    ensures Value(t, u, v, p, sin) == Value(t, u2, v2, p, sin)
  {
    match t
    case ConstantTexture(_) =>
    case CheckerTexture(odd, even) =>
      ValueIgnoresUV(odd, u, v, u2, v2, p, sin);
      ValueIgnoresUV(even, u, v, u2, v2, p, sin);
  }
}
