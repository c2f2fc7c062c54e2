/** Component data of the simulation core: local and world ("global")
    transforms with their composition rule, sprite origins and collider
    shapes. All pure values. */
module Components {
  import opened Geometry

  /** Local transform, authored by simulation logic. Rotation is in degrees. */
  datatype Transform = Transform(position: Vector2, rotation: real, scale: Vector2)

  /** World transform, derived from the local ones along the hierarchy. */
  datatype GlobalTransform = GlobalTransform(position: Vector2, rotation: real, scale: Vector2)

  const DefaultTransform: Transform := Transform(Zero, 0.0, Vector2(1.0, 1.0))

  const DefaultGlobalTransform: GlobalTransform := GlobalTransform(Zero, 0.0, Vector2(1.0, 1.0))

  /** `a` and `b` differ by a whole number of turns. */
  predicate SameAngle(a: real, b: real) {
    ((a - b) / 360.0).Floor as real == (a - b) / 360.0
  }

  /** `f32::rem_euclid(x, 360.0)` on exact reals: x - 360 * floor(x / 360). */
  function WrapDegrees(x: real): (r: real)
    ensures 0.0 <= r < 360.0
    ensures SameAngle(x, r)
  {
    var k := (x / 360.0).Floor;
    assert (x - (x - 360.0 * k as real)) / 360.0 == k as real;
    x - 360.0 * k as real
  }

  /** The wrapped angle is the only angle in [0, 360) with the same direction. */
  lemma WrapDegreesUnique(x: real, y: real)
    requires 0.0 <= y < 360.0 && SameAngle(x, y)
    ensures y == WrapDegrees(x)
  {
    var w := WrapDegrees(x);
    var n := ((x - y) / 360.0).Floor;
    var m := ((x - w) / 360.0).Floor;
    assert x - y == 360.0 * n as real;
    assert x - w == 360.0 * m as real;
    assert w - y == 360.0 * (n - m) as real;
    assert -1.0 < (n - m) as real < 1.0;
  }

  lemma FloorShift(z: real, n: int)
    ensures (z - n as real).Floor == z.Floor - n
  {
  }

  /** An angle already in [0, 360) is left alone. */
  lemma WrapDegreesOfNormalised(x: real)
    requires 0.0 <= x < 360.0
    ensures WrapDegrees(x) == x
  {
    assert 0.0 <= x / 360.0 < 1.0;
    assert (x / 360.0).Floor == 0;
  }

  /** Wrapping a partial sum first does not change the wrapped total, so a
      chain of compositions keeps a well-defined direction. */
  lemma WrapDegreesAbsorbs(a: real, b: real)
    ensures WrapDegrees(WrapDegrees(a) + b) == WrapDegrees(a + b)
  {
    var n := (a / 360.0).Floor;
    var w := a - 360.0 * n as real;
    assert WrapDegrees(a) == w;
    assert (w + b) / 360.0 == (a + b) / 360.0 - n as real;
    FloorShift((a + b) / 360.0, n);
  }

  /** `GlobalTransform::from_local`: compose a parent's world transform with a
      child's local transform. */
  function FromLocal(parent: GlobalTransform, local: Transform): (g: GlobalTransform)
    ensures g.position == Add(parent.position, local.position)
    ensures g.scale == Mul(parent.scale, local.scale)
    ensures 0.0 <= g.rotation < 360.0 && SameAngle(parent.rotation + local.rotation, g.rotation)
  {
    GlobalTransform(
      Add(parent.position, local.position),
      WrapDegrees(parent.rotation + local.rotation),
      Mul(parent.scale, local.scale))
  }

  /** `GlobalTransform::from_root`: the world transform of a parentless entity. */
  function FromRoot(local: Transform): (g: GlobalTransform)
    ensures g.position == local.position && g.scale == local.scale
    ensures 0.0 <= g.rotation < 360.0 && SameAngle(local.rotation, g.rotation)
  {
    GlobalTransform(local.position, WrapDegrees(local.rotation), local.scale)
  }

  /** A root is composed against the identity: from_local(default, t) == from_root(t). */
  lemma FromLocalOfDefaultIsFromRoot(t: Transform)
    ensures FromLocal(DefaultGlobalTransform, t) == FromRoot(t)
  {
    assert Add(Zero, t.position) == t.position;
    assert Mul(Vector2(1.0, 1.0), t.scale) == t.scale;
    assert 0.0 + t.rotation == t.rotation;
  }

  /** A rotation already in [0, 360) survives from_root unchanged. */
  lemma FromRootKeepsNormalisedRotation(t: Transform)
    requires 0.0 <= t.rotation < 360.0
    ensures FromRoot(t).rotation == t.rotation
  {
    WrapDegreesOfNormalised(t.rotation);
  }

  /** The default local and world transforms agree and are the identity. */
  lemma DefaultsAgree()
    ensures FromRoot(DefaultTransform) == DefaultGlobalTransform
  {
    FromRootKeepsNormalisedRotation(DefaultTransform);
  }

  /** A chain root -> A -> B with no rotation and unit scale adds positions. */
  lemma ChainOfThree(p0: Vector2, p1: Vector2, p2: Vector2)
    ensures var root := FromRoot(Transform(p0, 0.0, Vector2(1.0, 1.0)));
            var a := FromLocal(root, Transform(p1, 0.0, Vector2(1.0, 1.0)));
            var b := FromLocal(a, Transform(p2, 0.0, Vector2(1.0, 1.0)));
            b == GlobalTransform(Vector2(p0.x + p1.x + p2.x, p0.y + p1.y + p2.y), 0.0, Vector2(1.0, 1.0))
  {
    var unit := Vector2(1.0, 1.0);
    WrapDegreesOfNormalised(0.0);
    var root := FromRoot(Transform(p0, 0.0, unit));
    assert root == GlobalTransform(p0, 0.0, unit);
    var a := FromLocal(root, Transform(p1, 0.0, unit));
    assert a == GlobalTransform(Add(p0, p1), 0.0, unit);
    var b := FromLocal(a, Transform(p2, 0.0, unit));
    assert b == GlobalTransform(Add(Add(p0, p1), p2), 0.0, unit);
  }

  /** Composing twice wraps the rotation once: the grandchild's rotation is the
      wrapped sum of all three local rotations. */
  lemma ChainRotation(root: Transform, a: Transform, b: Transform)
    ensures FromLocal(FromLocal(FromRoot(root), a), b).rotation
         == WrapDegrees(root.rotation + a.rotation + b.rotation)
  {
    WrapDegreesAbsorbs(root.rotation, a.rotation);
    WrapDegreesAbsorbs(root.rotation + a.rotation, b.rotation);
  }

  // ----- sprites -----

  datatype SpriteOrigin =
    | TopLeft | Top | TopRight
    | Left | Center | Right
    | BottomLeft | Bottom | BottomRight
    | Custom(v: Vector2)

  const DefaultOrigin: SpriteOrigin := Bottom

  /** A visual representation; a texture's pixels are not part of this model. */
  datatype SpriteKind =
    | RectangleSprite(size: (real, real), lines: bool)
    | CircleSprite(radius: real)
    | TextureSprite

  const DefaultSpriteKind: SpriteKind := RectangleSprite((32.0, 32.0), false)

  datatype Sprite = Sprite(kind: SpriteKind, origin: SpriteOrigin)

  const DefaultSprite: Sprite := Sprite(DefaultSpriteKind, DefaultOrigin)

  /** The debug assertions of `get_origin_vector`: a custom origin lies in
      the unit square. */
  predicate OriginInRange(o: SpriteOrigin) {
    o.Custom? ==> 0.0 <= o.v.x <= 1.0 && 0.0 <= o.v.y <= 1.0
  }

  predicate IsHalfStep(c: real) {
    c == 0.0 || c == 0.5 || c == 1.0
  }

  /** `Sprite::get_origin_vector`: the anchor as a fraction of the sprite's size. */
  function OriginVector(o: SpriteOrigin): (r: Vector2)
    requires OriginInRange(o)
    ensures 0.0 <= r.x <= 1.0 && 0.0 <= r.y <= 1.0
    ensures o.Custom? ==> r == o.v
    ensures !o.Custom? ==> IsHalfStep(r.x) && IsHalfStep(r.y)
    ensures (o == TopLeft || o == Left || o == BottomLeft) <==> (!o.Custom? && r.x == 0.0)
    ensures (o == TopLeft || o == Top || o == TopRight) <==> (!o.Custom? && r.y == 0.0)
    ensures (o == TopRight || o == Right || o == BottomRight) <==> (!o.Custom? && r.x == 1.0)
    ensures (o == BottomLeft || o == Bottom || o == BottomRight) <==> (!o.Custom? && r.y == 1.0)
  {
    match o
    case TopLeft => Vector2(0.0, 0.0)
    case Top => Vector2(0.5, 0.0)
    case TopRight => Vector2(1.0, 0.0)
    case Left => Vector2(0.0, 0.5)
    case Center => Vector2(0.5, 0.5)
    case Right => Vector2(1.0, 0.5)
    case BottomLeft => Vector2(0.0, 1.0)
    case Bottom => Vector2(0.5, 1.0)
    case BottomRight => Vector2(1.0, 1.0)
    case Custom(v) => v
  }

  /** The nine named origins are pairwise distinct anchors. */
  lemma NamedOriginsDistinct(a: SpriteOrigin, b: SpriteOrigin)
    requires !a.Custom? && !b.Custom? && a != b
    ensures OriginVector(a) != OriginVector(b)
  {
  }

  // ----- colliders -----

  /** The only collider shape: an axis-aligned rectangle of the given size. */
  datatype ColliderKind = RectangleShape(size: Vector2)

  /** A collider. Its offset anchors the rectangle relative to the owner's
      world position. */
  datatype Collider = Collider(kind: ColliderKind, offset: Vector2)

  const DefaultCollider: Collider := Collider(RectangleShape(Vector2(32.0, 32.0)), Zero)

  /** The world rectangle of a collider: the owner's world position minus the
      offset, the shape's size times the world scale. */
  function ColliderRect(c: Collider, g: GlobalTransform): Rect {
    Rect(g.position.x - c.offset.x, g.position.y - c.offset.y,
         c.kind.size.x * g.scale.x, c.kind.size.y * g.scale.y)
  }
}
