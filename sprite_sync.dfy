/** Keeping the derived geometry in step with the sprites: the collider
    offset of a sprite-synced collider, and the rectangle each sprite is
    recorded under in the spatial hash. */
module SpriteSync {
  import opened Geometry
  import opened Components
  import opened Hierarchy
  import opened SpatialHashing

  /** The unscaled extent of a sprite's shape: a rectangle's size, a
      circle's radius on both axes; a texture has none. */
  function Extent(k: SpriteKind): Option<(real, real)> {
    match k
    case RectangleSprite(size, _) => Some(size)
    case CircleSprite(radius) => Some((radius, radius))
    case TextureSprite => None
  }

  /** A w by h rectangle placed so that `position` sits at the fractions
      `o` of its width and height. */
  function Placed(position: Vector2, w: real, h: real, o: Vector2): (r: Rect)
    ensures r.width == w && r.height == h
    ensures position.x == r.x + w * o.x && position.y == r.y + h * o.y
  {
    Rect(position.x - w * o.x, position.y - h * o.y, w, h)
  }

  /** The rectangle recorded for a sprite drawn at `position` with `scale`:
      the scaled extent, placed at the sprite's origin. Texture sprites are
      skipped. */
  function SpriteRect(s: Sprite, position: Vector2, scale: Vector2): (r: Option<Rect>)
    requires OriginInRange(s.origin)
    ensures r.None? <==> s.kind.TextureSprite?
    ensures r.Some? ==>
              var ext := Extent(s.kind).value;
              r.value == Placed(position, ext.0 * scale.x, ext.1 * scale.y, OriginVector(s.origin))
  {
    match Extent(s.kind)
    case Some(shape) => Some(Placed(position, shape.0 * scale.x, shape.1 * scale.y, OriginVector(s.origin)))
    case None => None
  }

  /** A placed rectangle of nonnegative size is not inverted and holds its
      anchor; the origin's fractions 0, 1/2 and 1 put the anchor on an edge
      or the centre line. */
  lemma PlacedHoldsAnchor(position: Vector2, w: real, h: real, o: Vector2)
    requires w >= 0.0 && h >= 0.0 && 0.0 <= o.x <= 1.0 && 0.0 <= o.y <= 1.0
    ensures var r := Placed(position, w, h, o);
            && NonInverted(r)
            && r.x <= position.x <= r.x + r.width && r.y <= position.y <= r.y + r.height
            && (o.x == 0.0 ==> r.x == position.x) && (o.x == 0.5 ==> r.x + r.width / 2.0 == position.x)
            && (o.x == 1.0 ==> r.x + r.width == position.x)
            && (o.y == 0.0 ==> r.y == position.y) && (o.y == 0.5 ==> r.y + r.height / 2.0 == position.y)
            && (o.y == 1.0 ==> r.y + r.height == position.y)
  {
    var r := Placed(position, w, h, o);
    MulBounds(w, o.x);
    MulBounds(h, o.y);
    assert r.x == position.x - w * o.x && r.y == position.y - h * o.y;
  }

  lemma MulBounds(w: real, f: real)
    requires w >= 0.0 && 0.0 <= f <= 1.0
    ensures 0.0 <= w * f <= w
    ensures f == 0.0 ==> w * f == 0.0
    ensures f == 0.5 ==> w * f == w / 2.0
    ensures f == 1.0 ==> w * f == w
  {
    MulNonneg(w, f);
    MulNonneg(w, 1.0 - f);
    assert w - w * f == w * (1.0 - f);
  }

  /** With a nonnegative extent and scale the sprite's rectangle is not
      inverted and holds the sprite's position. */
  lemma SpriteRectPlacement(s: Sprite, position: Vector2, scale: Vector2)
    requires OriginInRange(s.origin) && !s.kind.TextureSprite?
    requires Extent(s.kind).value.0 >= 0.0 && Extent(s.kind).value.1 >= 0.0 && scale.x >= 0.0 && scale.y >= 0.0
    ensures var r := SpriteRect(s, position, scale).value;
            NonInverted(r) && r.x <= position.x <= r.x + r.width && r.y <= position.y <= r.y + r.height
  {
    var ext := Extent(s.kind).value;
    MulNonneg(ext.0, scale.x);
    MulNonneg(ext.1, scale.y);
    PlacedHoldsAnchor(position, ext.0 * scale.x, ext.1 * scale.y, OriginVector(s.origin));
  }

  /** A top-left origin puts the sprite's rectangle's corner at its
      position, a centred one its centre, the default (bottom) origin the
      middle of its bottom edge. */
  lemma SpriteRectNamedOrigins(s: Sprite, position: Vector2, scale: Vector2)
    requires !s.kind.TextureSprite?
    requires Extent(s.kind).value.0 >= 0.0 && Extent(s.kind).value.1 >= 0.0 && scale.x >= 0.0 && scale.y >= 0.0
    ensures s.origin == TopLeft ==> Position(SpriteRect(s, position, scale).value) == position
    ensures s.origin == Center ==>
              var r := SpriteRect(s, position, scale).value;
              r.x + r.width / 2.0 == position.x && r.y + r.height / 2.0 == position.y
    ensures s.origin == DefaultOrigin ==>
              var r := SpriteRect(s, position, scale).value;
              r.x + r.width / 2.0 == position.x && r.y + r.height == position.y
  {
    if s.origin == TopLeft || s.origin == Center || s.origin == DefaultOrigin {
      var ext := Extent(s.kind).value;
      var o := OriginVector(s.origin);
      MulNonneg(ext.0, scale.x);
      MulNonneg(ext.1, scale.y);
      PlacedHoldsAnchor(position, ext.0 * scale.x, ext.1 * scale.y, o);
    }
  }

  lemma MulNonneg(a: real, b: real)
    requires a >= 0.0 && b >= 0.0
    ensures a * b >= 0.0
  {
  }

  /** The offset `sync_collider_with_sprite_system` of the systems
      module gives a collider: its scaled size times the sprite's origin. */
  function SyncedOffset(c: Collider, s: Sprite, g: GlobalTransform): (c': Collider)
    requires OriginInRange(s.origin)
    ensures c'.kind == c.kind
    ensures var r := ColliderRect(c', g);
            var o := OriginVector(s.origin);
            g.position.x == r.x + r.width * o.x && g.position.y == r.y + r.height * o.y
  {
    var origin := OriginVector(s.origin);
    var size := c.kind.size;
    c.(offset := Vector2((size.x * g.scale.x) * origin.x, (size.y * g.scale.y) * origin.y))
  }

  /** The main module's form of the same offset, size times origin
      times scale. */
  function SyncedOffsetBruteForce(c: Collider, s: Sprite, g: GlobalTransform): Collider
    requires OriginInRange(s.origin)
  {
    c.(offset := Mul(Mul(c.kind.size, OriginVector(s.origin)), g.scale))
  }

  /** The two versions compute the same offset. */
  lemma OffsetFormsAgree(c: Collider, s: Sprite, g: GlobalTransform)
    requires OriginInRange(s.origin)
    ensures SyncedOffsetBruteForce(c, s, g) == SyncedOffset(c, s, g)
  {
    var o := OriginVector(s.origin);
    var size := c.kind.size;
    assert (size.x * o.x) * g.scale.x == (size.x * g.scale.x) * o.x;
    assert (size.y * o.y) * g.scale.y == (size.y * g.scale.y) * o.y;
  }

  /** A synced collider whose shape is the sprite's rectangle covers exactly
      the rectangle the sprite is recorded under in the spatial hash. */
  lemma SyncedColliderMatchesSprite(c: Collider, s: Sprite, g: GlobalTransform)
    requires OriginInRange(s.origin) && s.kind.RectangleSprite?
    requires c.kind.size == Vector2(s.kind.size.0, s.kind.size.1)
    ensures ColliderRect(SyncedOffset(c, s, g), g) == SpriteRect(s, g.position, g.scale).value
  {
    var o := OriginVector(s.origin);
    var size := c.kind.size;
    assert size.x == s.kind.size.0 && size.y == s.kind.size.1;
    assert SyncedOffset(c, s, g).offset == Vector2((size.x * g.scale.x) * o.x, (size.y * g.scale.y) * o.y);
  }

  /** Syncing twice is syncing once. */
  lemma SyncedOffsetIdempotent(c: Collider, s: Sprite, g: GlobalTransform)
    requires OriginInRange(s.origin)
    ensures SyncedOffset(SyncedOffset(c, s, g), s, g) == SyncedOffset(c, s, g)
  {
  }

  /** `sync_collider_with_sprite_system`: `rows` are the entities the query
      matches (a collider, a sprite, a world transform, the sync marker, a
      changed sprite or world transform), each once. */
  method SyncColliders(colliders: map<Entity, Collider>, rows: seq<(Entity, Sprite, GlobalTransform)>)
    returns (out: map<Entity, Collider>)
    requires forall i :: 0 <= i < |rows| ==> rows[i].0 in colliders && OriginInRange(rows[i].1.origin)
    requires forall i, j :: 0 <= i < j < |rows| ==> rows[i].0 != rows[j].0
    ensures out.Keys == colliders.Keys
    ensures forall i :: 0 <= i < |rows| ==> out[rows[i].0] == SyncedOffset(colliders[rows[i].0], rows[i].1, rows[i].2)
    ensures forall e :: e in colliders && (forall i :: 0 <= i < |rows| ==> rows[i].0 != e) ==> out[e] == colliders[e]
  {
    out := colliders;
    var k := 0;
    while k < |rows|
      invariant 0 <= k <= |rows|
      invariant out.Keys == colliders.Keys
      invariant forall i :: 0 <= i < k ==> out[rows[i].0] == SyncedOffset(colliders[rows[i].0], rows[i].1, rows[i].2)
      invariant forall e :: e in colliders && (forall i :: 0 <= i < k ==> rows[i].0 != e) ==> out[e] == colliders[e]
    {
      var (e, s, g) := rows[k];
      out := out[e := SyncedOffset(out[e], s, g)];
      k := k + 1;
    }
  }

  /** A row of the spatial-hash update query: the entity, its sprite and
      the position and scale it is hashed at (the world transform in the
      systems module, the local transform in the main module). */
  datatype HashRow = HashRow(e: Entity, sprite: Sprite, position: Vector2, scale: Vector2)

  predicate OriginsInRange(rows: seq<HashRow>) {
    forall i :: 0 <= i < |rows| ==> OriginInRange(rows[i].sprite.origin)
  }

  function RowRect(row: HashRow): Option<Rect>
    requires OriginInRange(row.sprite.origin)
  {
    SpriteRect(row.sprite, row.position, row.scale)
  }

  /** The spatial hash's records after `update` has been called for each
      row with a shape, in order. */
  function RecordsAfter(entities: map<Entity, Rect>, rows: seq<HashRow>): map<Entity, Rect>
    requires OriginsInRange(rows)
  {
    if |rows| == 0 then entities
    else
      var n := |rows| - 1;
      assert forall i :: 0 <= i < n ==> rows[..n][i] == rows[i];
      var es := RecordsAfter(entities, rows[..n]);
      match RowRect(rows[n])
      case None => es
      case Some(r) => es[rows[n].e := r]
  }

  /** The spatial hash's cells after the same calls. */
  function CellsAfter(cellSize: real, cells: map<Cell, seq<Entity>>, entities: map<Entity, Rect>, rows: seq<HashRow>)
    : map<Cell, seq<Entity>>
    requires cellSize > 0.0 && OriginsInRange(rows)
  {
    if |rows| == 0 then cells
    else
      var n := |rows| - 1;
      assert forall i :: 0 <= i < n ==> rows[..n][i] == rows[i];
      var cs := CellsAfter(cellSize, cells, entities, rows[..n]);
      match RowRect(rows[n])
      case None => cs
      case Some(r) => UpdateCells(cellSize, cs, RecordsAfter(entities, rows[..n]), rows[n].e, r)
  }

  /** The rows never record an inverted rectangle. */
  predicate RectsNonInverted(rows: seq<HashRow>)
    requires OriginsInRange(rows)
  {
    forall i :: 0 <= i < |rows| && RowRect(rows[i]).Some? ==> NonInverted(RowRect(rows[i]).value)
  }

  /** The pass keeps the spatial hash's invariant. */
  lemma {:induction false} AfterConsistent(cellSize: real, cells: map<Cell, seq<Entity>>,
                                           entities: map<Entity, Rect>, rows: seq<HashRow>)
    requires Consistent(cellSize, cells, entities) && OriginsInRange(rows) && RectsNonInverted(rows)
    ensures Consistent(cellSize, CellsAfter(cellSize, cells, entities, rows), RecordsAfter(entities, rows))
    decreases |rows|
  {
    if |rows| > 0 {
      var n := |rows| - 1;
      assert forall i :: 0 <= i < n ==> rows[..n][i] == rows[i];
      AfterConsistent(cellSize, cells, entities, rows[..n]);
      if RowRect(rows[n]).Some? {
        UpdateKeepsConsistent(cellSize, CellsAfter(cellSize, cells, entities, rows[..n]),
                              RecordsAfter(entities, rows[..n]), rows[n].e, RowRect(rows[n]).value);
      }
    }
  }

  /** After the pass each row with a shape has its entity recorded under the
      sprite's rectangle. */
  lemma {:induction false} RecordsAfterHasRows(entities: map<Entity, Rect>, rows: seq<HashRow>, i: nat)
    requires OriginsInRange(rows) && i < |rows| && RowRect(rows[i]).Some?
    requires forall j, j' :: 0 <= j < j' < |rows| ==> rows[j].e != rows[j'].e
    ensures rows[i].e in RecordsAfter(entities, rows)
    ensures RecordsAfter(entities, rows)[rows[i].e] == RowRect(rows[i]).value
    decreases |rows|
  {
    var n := |rows| - 1;
    assert forall j :: 0 <= j < n ==> rows[..n][j] == rows[j];
    if i < n {
      RecordsAfterHasRows(entities, rows[..n], i);
    }
  }

  /** An entity no row with a shape names keeps its record, or its absence. */
  lemma {:induction false} RecordsAfterKeepsOthers(entities: map<Entity, Rect>, rows: seq<HashRow>, x: Entity)
    requires OriginsInRange(rows)
    requires forall i :: 0 <= i < |rows| && RowRect(rows[i]).Some? ==> rows[i].e != x
    ensures x in RecordsAfter(entities, rows) <==> x in entities
    ensures x in entities ==> RecordsAfter(entities, rows)[x] == entities[x]
    decreases |rows|
  {
    if |rows| > 0 {
      var n := |rows| - 1;
      assert forall j :: 0 <= j < n ==> rows[..n][j] == rows[j];
      RecordsAfterKeepsOthers(entities, rows[..n], x);
    }
  }

  /** One row of the pass. */
  method HashRowUpdate(hash: SpatialHash, row: HashRow)
    requires hash.WellFormed() && OriginInRange(row.sprite.origin)
    requires RowRect(row).Some? ==> NonInverted(RowRect(row).value)
    modifies hash
    ensures hash.cells == match RowRect(row)
                         case None => old(hash.cells)
                         case Some(r) => UpdateCells(hash.cellSize, old(hash.cells), old(hash.entities), row.e, r)
    ensures hash.entities == match RowRect(row)
                            case None => old(hash.entities)
                            case Some(r) => old(hash.entities)[row.e := r]
    ensures hash.WellFormed()
    ensures old(hash.Valid()) ==> hash.Valid()
  {
    match RowRect(row) {
      case Some(rect) => hash.Update(row.e, rect);
      case None =>
    }
  }

  /** `update_spatial_hash_system`: `update` for every sprite with a shape
      whose transform changed. */
  method UpdateSpatialHash(hash: SpatialHash, rows: seq<HashRow>)
    requires hash.WellFormed() && OriginsInRange(rows) && RectsNonInverted(rows)
    modifies hash
    ensures hash.cells == CellsAfter(hash.cellSize, old(hash.cells), old(hash.entities), rows)
    ensures hash.entities == RecordsAfter(old(hash.entities), rows)
    ensures hash.WellFormed()
    ensures old(hash.Valid()) ==> hash.Valid()
  {
    var k := 0;
    while k < |rows|
      invariant 0 <= k <= |rows|
      invariant hash.WellFormed()
      invariant hash.cells == CellsAfter(hash.cellSize, old(hash.cells), old(hash.entities), rows[..k])
      invariant hash.entities == RecordsAfter(old(hash.entities), rows[..k])
      invariant old(hash.Valid()) ==> hash.Valid()
    {
      assert rows[..k + 1][..k] == rows[..k];
      HashRowUpdate(hash, rows[k]);
      k := k + 1;
    }
    assert rows[..k] == rows;
  }
}
