/** Position and scale of a scene object (src/Transform.cs). */
module Transforms {
  import opened Vectors

  /** The constructor stores the given position and scale. */
  datatype Transform = Transform(position: Vector2, scale: Vector2)

  /** Transform.Translate moves the position by `v`; the scale stays. */
  function Translate(t: Transform, v: Vector2): (r: Transform)
    ensures r.scale == t.scale
    ensures Sub(r.position, t.position) == v
  {
    t.(position := Add(t.position, v))
  }

  lemma TranslateZero(t: Transform)
    ensures Translate(t, Zero) == t
  {
  }

  /** Translating by u and then by v is translating by u + v. */
  lemma TranslateTwice(t: Transform, u: Vector2, v: Vector2)
    ensures Translate(Translate(t, u), v) == Translate(t, Add(u, v))
  {
  }
}
