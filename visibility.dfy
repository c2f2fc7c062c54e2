/** The camera: following its target, zooming on the mouse wheel, and
    marking the entities the spatial hash finds around the view with
    OnScreen, in both versions. */
module Visibility {
  import opened Geometry
  import opened SpatialHashing

  /** The 2D camera: the world point it looks at, the screen point that
      world point is drawn at, and the zoom factor. */
  datatype Camera = Camera(target: Vector2, offset: Vector2, zoom: real)

  const MaxZoom: real := 5.0
  /** The lower zoom bound of the systems module. */
  const MinZoom: real := 0.3
  /** The lower zoom bound of the main module. */
  const MinZoomBruteForce: real := 0.0

  /** `f32::clamp`. */
  function Clamp(v: real, lo: real, hi: real): (r: real)
    requires lo <= hi
    ensures lo <= r <= hi
    ensures lo <= v <= hi ==> r == v
    ensures v < lo ==> r == lo
    ensures v > hi ==> r == hi
  {
    if v < lo then lo else if v > hi then hi else v
  }

  /** The zoom after one frame's wheel movement: a tenth of the movement is
      added and the sum clamped, and nothing happens without movement. */
  function Scrolled(zoom: real, wheel: real, lo: real): (z: real)
    requires lo <= MaxZoom
    ensures wheel != 0.0 ==> lo <= z <= MaxZoom && (lo <= zoom + wheel / 10.0 <= MaxZoom ==> z == zoom + wheel / 10.0)
    ensures wheel != 0.0 && zoom + wheel / 10.0 < lo ==> z == lo
    ensures wheel != 0.0 && zoom + wheel / 10.0 > MaxZoom ==> z == MaxZoom
    ensures wheel == 0.0 ==> z == zoom
  {
    var scroll := wheel / 10.0;
    if scroll != 0.0 then Clamp(zoom + scroll, lo, MaxZoom) else zoom
  }

  /** `move_camera_to_target_system` of the systems module. */
  function MoveCamera(c: Camera, targetPosition: Vector2, wheel: real): (c': Camera)
    ensures c'.target == targetPosition && c'.offset == c.offset
    ensures c'.zoom == Scrolled(c.zoom, wheel, MinZoom)
  {
    c.(target := targetPosition, zoom := Scrolled(c.zoom, wheel, MinZoom))
  }

  /** `move_camera_to_target_system` of the main module. */
  function MoveCameraBruteForce(c: Camera, targetPosition: Vector2, wheel: real): (c': Camera)
    ensures c'.target == targetPosition && c'.offset == c.offset
    ensures c'.zoom == Scrolled(c.zoom, wheel, MinZoomBruteForce)
  {
    c.(target := targetPosition, zoom := Scrolled(c.zoom, wheel, MinZoomBruteForce))
  }

  /** The zoom after a run of frames, one wheel reading each. */
  function ZoomAfter(zoom: real, wheels: seq<real>, lo: real): real
    requires lo <= MaxZoom
  {
    if |wheels| == 0 then zoom else Scrolled(ZoomAfter(zoom, wheels[..|wheels| - 1], lo), wheels[|wheels| - 1], lo)
  }

  /** Once in range the zoom stays in range, whatever the wheel does: in the
      systems module it stays positive, so the view rectangle, which
      divides by it, is always defined. */
  lemma {:induction false} ZoomStaysInRange(zoom: real, wheels: seq<real>, lo: real)
    requires lo <= zoom <= MaxZoom
    ensures lo <= ZoomAfter(zoom, wheels, lo) <= MaxZoom
    decreases |wheels|
  {
    if |wheels| > 0 {
      ZoomStaysInRange(zoom, wheels[..|wheels| - 1], lo);
    }
  }

  /** The query rectangle of the systems module: from the target minus
      the screen size over the zoom to the target plus it, no margin. */
  function ViewRect(c: Camera, screen: Vector2): (r: Rect)
    requires c.zoom > 0.0
    ensures r.x + r.width / 2.0 == c.target.x && r.y + r.height / 2.0 == c.target.y
    ensures r.width * c.zoom == 2.0 * screen.x && r.height * c.zoom == 2.0 * screen.y
  {
    var extraOffset := 0.0;
    var minX, minY := c.target.x - screen.x / c.zoom, c.target.y - screen.y / c.zoom;
    var maxX, maxY := c.target.x + screen.x / c.zoom, c.target.y + screen.y / c.zoom;
    Rect(minX - extraOffset, minY - extraOffset, maxX - minX + extraOffset * 2.0, maxY - minY + extraOffset * 2.0)
  }

  /** The margin of the main module's query rectangle. */
  const ExtraOffset: real := 1000.0

  /** The query rectangle of the main module: the screen area the
      camera shows at zoom 1, grown by the margin on every side. */
  function ViewRectPadded(c: Camera, screen: Vector2): (r: Rect)
    ensures r.x + ExtraOffset == c.target.x - c.offset.x && r.y + ExtraOffset == c.target.y - c.offset.y
    ensures r.x + r.width - ExtraOffset == c.target.x - c.offset.x + screen.x
    ensures r.y + r.height - ExtraOffset == c.target.y - c.offset.y + screen.y
  {
    var minX, minY := c.target.x - c.offset.x, c.target.y - c.offset.y;
    Rect(minX - ExtraOffset, minY - ExtraOffset, screen.x + ExtraOffset * 2.0, screen.y + ExtraOffset * 2.0)
  }

  /** The entities of a sequence, as a set. */
  function Members(s: seq<Entity>): (m: set<Entity>)
    ensures forall e :: e in m <==> e in s
  {
    set e | e in s
  }

  /** What OnScreen marks end up with when the spatial hash reports `found`:
      exactly the reported entities. Under the hash's invariant these are
      the recorded entities sharing a grid cell with the query rectangle,
      which includes every one touching it. */
  lemma MarkedAreFound(hash: SpatialHash, q: Rect, found: seq<Entity>, x: Entity)
    requires hash.Valid() && NonInverted(q) && found == Gather(hash.cells, CellRange(hash.cellSize, q))
    ensures x in Members(found) <==> x in hash.entities && ShareCell(hash.cellSize, q, hash.entities[x])
    ensures x in hash.entities && Touches(q, hash.entities[x]) ==> x in Members(found)
  {
    QueryMembership(hash.cellSize, hash.cells, hash.entities, q, x);
    if x in hash.entities && Touches(q, hash.entities[x]) {
      QueryFindsTouching(hash.cellSize, hash.cells, hash.entities, q, x);
    }
  }

  /** `update_on_screen_system` of the systems module. `marked` is the
      iteration of the OnScreen query; the insert commands, queued first,
      apply before the removals of marked entities the query did not
      report. */
  method UpdateOnScreen(hash: SpatialHash, screen: Vector2, c: Camera, marked: seq<Entity>)
    returns (marked': set<Entity>)
    requires hash.cellSize > 0.0 && c.zoom > 0.0 && NonInverted(ViewRect(c, screen))
    ensures marked' == Members(Gather(hash.cells, CellRange(hash.cellSize, ViewRect(c, screen))))
  {
    var found := hash.Query(ViewRect(c, screen));
    marked' := Members(marked);
    var k := 0;
    while k < |found|
      invariant 0 <= k <= |found|
      invariant marked' == Members(marked) + Members(found[..k])
    {
      assert found[..k + 1] == found[..k] + [found[k]];
      marked' := marked' + {found[k]};
      k := k + 1;
    }
    assert found[..k] == found;
    k := 0;
    while k < |marked|
      invariant 0 <= k <= |marked|
      invariant marked' == (Members(marked) + Members(found)) - (Members(marked[..k]) - Members(found))
    {
      assert marked[..k + 1] == marked[..k] + [marked[k]];
      if marked[k] !in found {
        marked' := marked' - {marked[k]};
      }
      k := k + 1;
    }
    assert marked[..k] == marked;
  }

  /** `update_on_screen_system` of the main module: every marked
      entity loses its mark, then every reported one gets it. */
  method UpdateOnScreenBruteForce(hash: SpatialHash, screen: Vector2, c: Camera, marked: seq<Entity>)
    returns (marked': set<Entity>)
    requires hash.cellSize > 0.0 && NonInverted(ViewRectPadded(c, screen))
    ensures marked' == Members(Gather(hash.cells, CellRange(hash.cellSize, ViewRectPadded(c, screen))))
  {
    var found := hash.Query(ViewRectPadded(c, screen));
    marked' := Members(marked);
    var k := 0;
    while k < |marked|
      invariant 0 <= k <= |marked|
      invariant marked' == Members(marked) - Members(marked[..k])
    {
      assert marked[..k + 1] == marked[..k] + [marked[k]];
      marked' := marked' - {marked[k]};
      k := k + 1;
    }
    assert marked[..k] == marked;
    k := 0;
    while k < |found|
      invariant 0 <= k <= |found|
      invariant marked' == Members(found[..k])
    {
      assert found[..k + 1] == found[..k] + [found[k]];
      marked' := marked' + {found[k]};
      k := k + 1;
    }
    assert found[..k] == found;
  }
}
