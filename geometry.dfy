/** Plane geometry shared by the whole simulation core: vectors, axis-aligned
    rectangles and the overlap test the resolver relies on. Coordinates are
    exact reals in place of the engine's `f32`. */
module Geometry {

  /** An entity identifier of the entity store; this core never creates one. */
  type Entity = nat

  datatype Vector2 = Vector2(x: real, y: real)

  const Zero: Vector2 := Vector2(0.0, 0.0)

  function Add(a: Vector2, b: Vector2): Vector2 {
    Vector2(a.x + b.x, a.y + b.y)
  }

  function Sub(a: Vector2, b: Vector2): Vector2 {
    Vector2(a.x - b.x, a.y - b.y)
  }

  /** Component-wise product, as `Vector2 * Vector2` in the rendering crate. */
  function Mul(a: Vector2, b: Vector2): Vector2 {
    Vector2(a.x * b.x, a.y * b.y)
  }

  /** A rectangle anchored at its top-left corner (x, y). */
  datatype Rect = Rect(x: real, y: real, width: real, height: real)

  function Position(r: Rect): Vector2 {
    Vector2(r.x, r.y)
  }

  /** The debug assertion of the grid index: no inverted rectangle. */
  predicate NonInverted(r: Rect) {
    r.width >= 0.0 && r.height >= 0.0
  }

  /** ASSUMED DEFINITION. `Rectangle::collides_rect` lives in the rendering
      crate, which is not part of this model; it is taken to be raylib's
      `CheckCollisionRecs`: strict overlap on both axes, so rectangles that
      only share an edge do not collide. */
  predicate CollidesRect(a: Rect, b: Rect) {
    a.x < b.x + b.width && a.x + a.width > b.x &&
    a.y < b.y + b.height && a.y + a.height > b.y
  }

  function Abs(v: real): (r: real)
    ensures r >= 0.0 && (r == v || r == -v)
  {
    if v < 0.0 then -v else v
  }

  /** The rectangles' centres compared on one axis, as the stationary
      resolver computes it: (a.x + a.w/2) - (b.x + b.w/2). */
  function CentreDeltaX(a: Rect, b: Rect): real {
    (a.x + a.width / 2.0) - (b.x + b.width / 2.0)
  }

  function CentreDeltaY(a: Rect, b: Rect): real {
    (a.y + a.height / 2.0) - (b.y + b.height / 2.0)
  }

  /** Penetration depth on each axis: half the summed extents minus the
      distance between the centres. */
  function IntersectX(a: Rect, b: Rect): real {
    (a.width + b.width) / 2.0 - Abs(CentreDeltaX(a, b))
  }

  function IntersectY(a: Rect, b: Rect): real {
    (a.height + b.height) / 2.0 - Abs(CentreDeltaY(a, b))
  }

  /** Strict overlap is exactly "positive penetration on both axes", whatever
      the signs of the extents. */
  lemma CollidesIffPositiveIntersect(a: Rect, b: Rect)
    ensures CollidesRect(a, b) <==> IntersectX(a, b) > 0.0 && IntersectY(a, b) > 0.0
  {
    var dx, dy := CentreDeltaX(a, b), CentreDeltaY(a, b);
    assert a.x - b.x == dx - a.width / 2.0 + b.width / 2.0;
    assert a.y - b.y == dy - a.height / 2.0 + b.height / 2.0;
  }

  /** Two closed rectangles share a point (touching counts). The grid index
      finds entities under this weaker notion of overlap. */
  predicate Touches(a: Rect, b: Rect) {
    a.x <= b.x + b.width && b.x <= a.x + a.width &&
    a.y <= b.y + b.height && b.y <= a.y + a.height
  }

  predicate NoDup<T(==)>(s: seq<T>) {
    forall i, j :: 0 <= i < j < |s| ==> s[i] != s[j]
  }
}
