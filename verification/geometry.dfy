/**
 * Axis-aligned bounding boxes in canvas coordinates, with the inclusive
 * `contains` / `intersects` tests, `merged` (union) and `aabb_translate`
 * that the selection engine relies on. Coordinates are `real`: the f64
 * rounding of the original is not modelled.
 */
module Geometry {
  import opened Options

  datatype Vec2 = Vec2(x: real, y: real)

  function Add(a: Vec2, b: Vec2): Vec2 {
    Vec2(a.x + b.x, a.y + b.y)
  }

  function Neg(v: Vec2): Vec2 {
    Vec2(-v.x, -v.y)
  }

  function Min(a: real, b: real): real { if a <= b then a else b }
  function Max(a: real, b: real): real { if a <= b then b else a }

  /** A box given by its lower-left corner `mins` and upper-right corner `maxs`. */
  datatype Aabb = Aabb(mins: Vec2, maxs: Vec2)

  predicate WellFormed(b: Aabb) {
    b.mins.x <= b.maxs.x && b.mins.y <= b.maxs.y
  }

  function Extents(b: Aabb): Vec2 {
    Vec2(b.maxs.x - b.mins.x, b.maxs.y - b.mins.y)
  }

  /** Both extents are nonzero, so that a box can be divided by. */
  predicate NonDegenerate(b: Aabb) {
    Extents(b).x != 0.0 && Extents(b).y != 0.0
  }

  /** `a.contains(b)`: `b` lies inside `a`, borders included, so it is no wider and no taller than `a`. */
  predicate Contains(a: Aabb, b: Aabb)
    ensures Contains(a, b) ==> Extents(b).x <= Extents(a).x && Extents(b).y <= Extents(a).y
  {
    a.mins.x <= b.mins.x && a.mins.y <= b.mins.y &&
    b.maxs.x <= a.maxs.x && b.maxs.y <= a.maxs.y
  }

  /**
   * `a.intersects(b)`: the boxes share at least one point, borders
   * included; for well-formed boxes, the overlap of their ranges is
   * nonempty on each axis.
   */
  predicate Intersects(a: Aabb, b: Aabb)
    ensures WellFormed(a) && WellFormed(b) ==>
      (Intersects(a, b) <==>
       Max(a.mins.x, b.mins.x) <= Min(a.maxs.x, b.maxs.x) && Max(a.mins.y, b.mins.y) <= Min(a.maxs.y, b.maxs.y))
  {
    a.mins.x <= b.maxs.x && b.mins.x <= a.maxs.x &&
    a.mins.y <= b.maxs.y && b.mins.y <= a.maxs.y
  }

  /** `a.merged(b)`: the smallest box holding both. */
  function Merge(a: Aabb, b: Aabb): (r: Aabb)
    ensures Contains(r, a) && Contains(r, b)
    ensures forall c :: Contains(c, a) && Contains(c, b) ==> Contains(c, r)
  {
    Aabb(Vec2(Min(a.mins.x, b.mins.x), Min(a.mins.y, b.mins.y)),
         Vec2(Max(a.maxs.x, b.maxs.x), Max(a.maxs.y, b.maxs.y)))
  }

  /** `geometry::aabb_translate`: both corners moved by `v`. */
  function Translate(b: Aabb, v: Vec2): (r: Aabb)
    ensures Extents(r) == Extents(b)
  {
    Aabb(Add(b.mins, v), Add(b.maxs, v))
  }

  function TranslateOpt(b: Option<Aabb>, v: Vec2): (r: Option<Aabb>)
    ensures r.Some? <==> b.Some?
  {
    if b.Some? then Some(Translate(b.value, v)) else None
  }

  lemma TranslateInverse(b: Aabb, v: Vec2)
    ensures Translate(Translate(b, v), Neg(v)) == b
  {
  }

  lemma TranslateTwice(b: Aabb, u: Vec2, v: Vec2)
    ensures Translate(Translate(b, u), v) == Translate(b, Add(u, v))
  {
  }

  /** Translation commutes with union. */
  lemma MergeTranslate(a: Aabb, b: Aabb, v: Vec2)
    ensures Merge(Translate(a, v), Translate(b, v)) == Translate(Merge(a, b), v)
  {
  }

  lemma ContainsTransitive(a: Aabb, b: Aabb, c: Aabb)
    requires Contains(a, b) && Contains(b, c)
    ensures Contains(a, c)
  {
  }

  /** A box that contains a well-formed box also touches it. */
  lemma ContainsIntersects(a: Aabb, b: Aabb)
    requires WellFormed(b) && Contains(a, b)
    ensures Intersects(a, b)
  {
  }

  /** Growing a box keeps every box it touched touched. */
  lemma IntersectsGrow(big: Aabb, small: Aabb, b: Aabb)
    requires Contains(big, small) && Intersects(small, b)
    ensures Intersects(big, b)
  {
  }
}
