/** The uniform-grid spatial index ("spatial hash"). A cell (cx, cy) holds
    the entities whose recorded rectangle touches it, and every entity's
    last recorded rectangle is kept beside the grid. Insert appends, update
    removes from the old cells and re-inserts; emptied cells stay in the map
    as empty lists, and query concatenates the buckets without removing
    duplicates. */
module SpatialHashing {
  import opened Geometry

  type Cell = (int, int)

  // ----- cell coordinates -----

  /** One axis of `cell_coords`: floor(v / cellSize). */
  function CellIndex(cellSize: real, v: real): int
    requires cellSize > 0.0
  {
    (v / cellSize).Floor
  }

  /** The cell index n is the cell whose span [n * size, (n + 1) * size) holds v. */
  lemma CellIndexBounds(cellSize: real, v: real)
    requires cellSize > 0.0
    ensures CellIndex(cellSize, v) as real * cellSize <= v
    ensures v < (CellIndex(cellSize, v) + 1) as real * cellSize
  {
    CellIndexAtMost(cellSize, v, CellIndex(cellSize, v));
    CellIndexAtLeast(cellSize, v, CellIndex(cellSize, v));
  }

  /** v / c < k exactly when v < k * c, for a positive c. */
  lemma DivLess(v: real, c: real, k: real)
    requires c > 0.0
    ensures v / c < k <==> v < k * c
  {
    var q := v / c;
    assert q * c == v;
    if q < k {
      MulStrict(q, k, c);
    } else {
      MulMono(k, q, c);
    }
  }

  lemma DivAtLeast(v: real, c: real, k: real)
    requires c > 0.0
    ensures k <= v / c <==> k * c <= v
  {
    DivLess(v, c, k);
    var q := v / c;
    assert q * c == v;
    if k <= q {
      MulMono(k, q, c);
    } else {
      MulStrict(q, k, c);
    }
  }

  lemma MulMono(a: real, b: real, c: real)
    requires a <= b && c > 0.0
    ensures a * c <= b * c
  {
  }

  lemma MulStrict(a: real, b: real, c: real)
    requires a < b && c > 0.0
    ensures a * c < b * c
  {
  }

  /** The cell index is the only n with n * cellSize <= v < (n + 1) * cellSize. */
  lemma CellIndexUnique(cellSize: real, v: real, n: int)
    requires cellSize > 0.0
    requires n as real * cellSize <= v < (n + 1) as real * cellSize
    ensures CellIndex(cellSize, v) == n
  {
    CellIndexAtMost(cellSize, v, n);
    CellIndexAtLeast(cellSize, v, n);
  }

  lemma CellIndexMono(cellSize: real, v: real, w: real)
    requires cellSize > 0.0 && v <= w
    ensures CellIndex(cellSize, v) <= CellIndex(cellSize, w)
  {
    var m := CellIndex(cellSize, v);
    CellIndexAtLeast(cellSize, v, m);
    CellIndexAtLeast(cellSize, w, m);
  }

  /** `cell_coords`: the cell holding the point (x, y). */
  function CellOf(cellSize: real, x: real, y: real): Cell
    requires cellSize > 0.0
  {
    (CellIndex(cellSize, x), CellIndex(cellSize, y))
  }

  /** The unit test's three points with a cell size of 10. */
  lemma CellOfExamples()
    ensures CellOf(10.0, 5.0, 5.0) == (0, 0)
    ensures CellOf(10.0, 15.0, 5.0) == (1, 0)
    ensures CellOf(10.0, -5.0, -5.0) == (-1, -1)
  {
    CellIndexUnique(10.0, 5.0, 0);
    CellIndexUnique(10.0, 15.0, 1);
    CellIndexUnique(10.0, -5.0, -1);
  }

  // ----- the cells of a rectangle -----

  /** Cells (x0, cy) .. (x1, cy), left to right. */
  function Row(cy: int, x0: int, x1: int): seq<Cell>
    decreases x1 - x0
  {
    if x1 < x0 then [] else Row(cy, x0, x1 - 1) + [(x1, cy)]
  }

  /** Rows y0 .. y1, top to bottom: the row-major enumeration of the block. */
  function Grid(x0: int, x1: int, y0: int, y1: int): seq<Cell>
    decreases y1 - y0
  {
    if y1 < y0 then [] else Grid(x0, x1, y0, y1 - 1) + Row(y1, x0, x1)
  }

  /** `a` comes strictly before `b` in row-major order (row first). */
  predicate RowMajorBefore(a: Cell, b: Cell) {
    a.1 < b.1 || (a.1 == b.1 && a.0 < b.0)
  }

  predicate RowMajorSorted(s: seq<Cell>) {
    forall i, j :: 0 <= i < j < |s| ==> RowMajorBefore(s[i], s[j])
  }

  lemma {:induction false} RowFacts(cy: int, x0: int, x1: int)
    ensures forall c :: c in Row(cy, x0, x1) <==> c.1 == cy && x0 <= c.0 <= x1
    ensures RowMajorSorted(Row(cy, x0, x1))
    ensures |Row(cy, x0, x1)| == if x1 < x0 then 0 else x1 - x0 + 1
    decreases x1 - x0
  {
    if x0 <= x1 {
      RowFacts(cy, x0, x1 - 1);
    }
  }

  lemma {:induction false} GridFacts(x0: int, x1: int, y0: int, y1: int)
    ensures forall c :: c in Grid(x0, x1, y0, y1) <==> x0 <= c.0 <= x1 && y0 <= c.1 <= y1
    ensures RowMajorSorted(Grid(x0, x1, y0, y1))
    decreases y1 - y0
  {
    if y0 <= y1 {
      GridFacts(x0, x1, y0, y1 - 1);
      RowFacts(y1, x0, x1);
      var g, r := Grid(x0, x1, y0, y1 - 1), Row(y1, x0, x1);
      assert forall i :: 0 <= i < |g| ==> g[i] in g;
      assert forall j :: 0 <= j < |r| ==> r[j] in r;
    }
  }

  lemma SortedNoDup(s: seq<Cell>)
    requires RowMajorSorted(s)
    ensures NoDup(s)
  {
  }

  /** The lowest and highest cells of a rectangle. */
  function LowCell(cellSize: real, r: Rect): Cell
    requires cellSize > 0.0
  {
    CellOf(cellSize, r.x, r.y)
  }

  function HighCell(cellSize: real, r: Rect): Cell
    requires cellSize > 0.0
  {
    CellOf(cellSize, r.x + r.width, r.y + r.height)
  }

  /** The cells from cell_coords(x, y) to cell_coords(x + w, y + h), far edge included. */
  predicate Covers(cellSize: real, r: Rect, c: Cell)
    requires cellSize > 0.0
  {
    var lo, hi := LowCell(cellSize, r), HighCell(cellSize, r);
    lo.0 <= c.0 <= hi.0 && lo.1 <= c.1 <= hi.1
  }

  /** The specification of `cell_coords_rect`. */
  function CellRange(cellSize: real, r: Rect): seq<Cell>
    requires cellSize > 0.0
  {
    var lo, hi := LowCell(cellSize, r), HighCell(cellSize, r);
    Grid(lo.0, hi.0, lo.1, hi.1)
  }

  /** `cell_coords_rect` lists exactly the covered cells, in row-major order
      (hence without duplicates), and never an empty list. */
  lemma CellRangeFacts(cellSize: real, r: Rect)
    requires cellSize > 0.0 && NonInverted(r)
    ensures forall c :: c in CellRange(cellSize, r) <==> Covers(cellSize, r, c)
    ensures RowMajorSorted(CellRange(cellSize, r)) && NoDup(CellRange(cellSize, r))
    ensures |CellRange(cellSize, r)| > 0
  {
    var lo, hi := LowCell(cellSize, r), HighCell(cellSize, r);
    GridFacts(lo.0, hi.0, lo.1, hi.1);
    SortedNoDup(CellRange(cellSize, r));
    CellIndexMono(cellSize, r.x, r.x + r.width);
    CellIndexMono(cellSize, r.y, r.y + r.height);
    assert lo in CellRange(cellSize, r);
  }

  /** The cell of v is at most n exactly when v lies left of cell n's far edge. */
  lemma CellIndexAtMost(cellSize: real, v: real, n: int)
    requires cellSize > 0.0
    ensures CellIndex(cellSize, v) <= n <==> v < (n + 1) as real * cellSize
  {
    DivLess(v, cellSize, (n + 1) as real);
  }

  /** The cell of v is at least n exactly when v lies right of cell n's near edge. */
  lemma CellIndexAtLeast(cellSize: real, v: real, n: int)
    requires cellSize > 0.0
    ensures n <= CellIndex(cellSize, v) <==> n as real * cellSize <= v
  {
    DivAtLeast(v, cellSize, n as real);
  }

  /** On one axis: cell n is in the index range of [v, v + len] exactly when
      the half-open cell [n * size, (n + 1) * size) meets that closed interval. */
  lemma AxisCoverage(cellSize: real, v: real, len: real, n: int)
    requires cellSize > 0.0 && len >= 0.0
    ensures CellIndex(cellSize, v) <= n <= CellIndex(cellSize, v + len)
        <==> v < (n + 1) as real * cellSize && n as real * cellSize <= v + len
  {
    CellIndexAtMost(cellSize, v, n);
    CellIndexAtLeast(cellSize, v + len, n);
  }

  /** A covered cell is one whose square meets the closed rectangle, with the
      square's far edges open: the far edge of the rectangle is included. */
  lemma CoversIffMeetsCell(cellSize: real, r: Rect, c: Cell)
    requires cellSize > 0.0 && NonInverted(r)
    ensures Covers(cellSize, r, c) <==>
      r.x < (c.0 + 1) as real * cellSize && c.0 as real * cellSize <= r.x + r.width &&
      r.y < (c.1 + 1) as real * cellSize && c.1 as real * cellSize <= r.y + r.height
  {
    AxisCoverage(cellSize, r.x, r.width, c.0);
    AxisCoverage(cellSize, r.y, r.height, c.1);
  }

  /** Every point of the closed rectangle lies in a covered cell. */
  lemma PointCellCovered(cellSize: real, r: Rect, px: real, py: real)
    requires cellSize > 0.0
    requires r.x <= px <= r.x + r.width && r.y <= py <= r.y + r.height
    ensures Covers(cellSize, r, CellOf(cellSize, px, py))
  {
    CellIndexMono(cellSize, r.x, px);
    CellIndexMono(cellSize, px, r.x + r.width);
    CellIndexMono(cellSize, r.y, py);
    CellIndexMono(cellSize, py, r.y + r.height);
  }

  /** Some cell is covered by both rectangles. */
  ghost predicate ShareCell(cellSize: real, a: Rect, b: Rect)
    requires cellSize > 0.0
  {
    exists c :: Covers(cellSize, a, c) && Covers(cellSize, b, c)
  }

  /** Touching rectangles (even only along an edge) always share a cell. */
  lemma TouchingShareCell(cellSize: real, a: Rect, b: Rect)
    requires cellSize > 0.0 && NonInverted(a) && NonInverted(b) && Touches(a, b)
    ensures ShareCell(cellSize, a, b)
  {
    var px := if a.x < b.x then b.x else a.x;
    var py := if a.y < b.y then b.y else a.y;
    PointCellCovered(cellSize, a, px, py);
    PointCellCovered(cellSize, b, px, py);
  }

  // ----- buckets -----

  /** The bucket of a cell; a missing cell reads as empty. */
  function Bucket(cells: map<Cell, seq<Entity>>, c: Cell): seq<Entity> {
    if c in cells then cells[c] else []
  }

  function Count(s: seq<Entity>, e: Entity): nat {
    multiset(s)[e]
  }

  /** `Vec::retain(|&eid| eid != e)`. */
  function Without(s: seq<Entity>, e: Entity): (r: seq<Entity>)
  {
    if |s| == 0 then []
    else Without(s[..|s| - 1], e) + (if s[|s| - 1] == e then [] else [s[|s| - 1]])
  }

  /** Retain drops every e and keeps every other entity as often as before. */
  lemma {:induction false} WithoutCount(s: seq<Entity>, e: Entity, x: Entity)
    ensures Count(Without(s, e), x) == if x == e then 0 else Count(s, x)
  {
    if |s| > 0 {
      var front, last := s[..|s| - 1], s[|s| - 1];
      WithoutCount(front, e, x);
      assert s == front + [last];
      assert multiset(s) == multiset(front) + multiset{last};
      assert multiset(Without(s, e)) == multiset(Without(front, e)) + multiset(if last == e then [] else [last]);
    }
  }

  /** Retain leaves a bucket without e untouched. */
  lemma {:induction false} WithoutAbsent(s: seq<Entity>, e: Entity)
    requires e !in s
    ensures Without(s, e) == s
  {
    if |s| > 0 {
      var front := s[..|s| - 1];
      assert s == front + [s[|s| - 1]];
      WithoutAbsent(front, e);
    }
  }

  lemma WithoutAppend(s: seq<Entity>, x: Entity, e: Entity)
    ensures Without(s + [x], e) == Without(s, e) + (if x == e then [] else [x])
  {
    assert (s + [x])[..|s + [x]| - 1] == s;
  }

  lemma CountAppend(s: seq<Entity>, x: Entity, e: Entity)
    ensures Count(s + [x], e) == Count(s, e) + (if x == e then 1 else 0)
  {
    assert multiset(s + [x]) == multiset(s) + multiset{x};
  }

  // ----- the state transitions -----

  /** The loop of `insert`: push e onto the bucket of each listed cell,
      creating missing buckets. */
  function InsertCells(cells: map<Cell, seq<Entity>>, coords: seq<Cell>, e: Entity): map<Cell, seq<Entity>>
  {
    if |coords| == 0 then cells
    else
      var m := InsertCells(cells, coords[..|coords| - 1], e);
      var c := coords[|coords| - 1];
      m[c := Bucket(m, c) + [e]]
  }

  /** The loop of `update` that removes e from each listed cell that exists. */
  function RemoveCells(cells: map<Cell, seq<Entity>>, coords: seq<Cell>, e: Entity): map<Cell, seq<Entity>>
  {
    if |coords| == 0 then cells
    else
      var m := RemoveCells(cells, coords[..|coords| - 1], e);
      var c := coords[|coords| - 1];
      if c in m then m[c := Without(m[c], e)] else m
  }

  lemma {:induction false} InsertCellsAt(cells: map<Cell, seq<Entity>>, coords: seq<Cell>, e: Entity)
    requires NoDup(coords)
    ensures forall c :: c in InsertCells(cells, coords, e) <==> c in cells || c in coords
    ensures forall c :: Bucket(InsertCells(cells, coords, e), c)
                     == if c in coords then Bucket(cells, c) + [e] else Bucket(cells, c)
  {
    if |coords| > 0 {
      var front := coords[..|coords| - 1];
      assert coords == front + [coords[|coords| - 1]];
      InsertCellsAt(cells, front, e);
    }
  }

  lemma {:induction false} RemoveCellsAt(cells: map<Cell, seq<Entity>>, coords: seq<Cell>, e: Entity)
    requires NoDup(coords)
    ensures RemoveCells(cells, coords, e).Keys == cells.Keys
    ensures forall c :: Bucket(RemoveCells(cells, coords, e), c)
                     == if c in coords then Without(Bucket(cells, c), e) else Bucket(cells, c)
  {
    if |coords| > 0 {
      var front := coords[..|coords| - 1];
      assert coords == front + [coords[|coords| - 1]];
      RemoveCellsAt(cells, front, e);
    }
  }

  /** The cells after `update(e, r)`: e leaves the cells of its recorded
      rectangle (if any), then is inserted into the cells of r. */
  function UpdateCells(cellSize: real, cells: map<Cell, seq<Entity>>, entities: map<Entity, Rect>,
                       e: Entity, r: Rect): map<Cell, seq<Entity>>
    requires cellSize > 0.0
  {
    var removed := if e in entities then RemoveCells(cells, CellRange(cellSize, entities[e]), e) else cells;
    InsertCells(removed, CellRange(cellSize, r), e)
  }

  /** What `update` leaves in each cell: e is gone from the old cells, then
      appended once to each new one; every other entry stays, in order, and
      no cell is deleted. */
  lemma UpdateCellsAt(cellSize: real, cells: map<Cell, seq<Entity>>, entities: map<Entity, Rect>,
                      e: Entity, r: Rect, c: Cell)
    requires cellSize > 0.0 && NonInverted(r)
    requires e in entities ==> NonInverted(entities[e])
    ensures c in UpdateCells(cellSize, cells, entities, e, r) <==> c in cells || Covers(cellSize, r, c)
    ensures var mid := if e in entities && Covers(cellSize, entities[e], c)
                       then Without(Bucket(cells, c), e) else Bucket(cells, c);
            Bucket(UpdateCells(cellSize, cells, entities, e, r), c)
              == if Covers(cellSize, r, c) then mid + [e] else mid
  {
    CellRangeFacts(cellSize, r);
    var removed := cells;
    if e in entities {
      CellRangeFacts(cellSize, entities[e]);
      RemoveCellsAt(cells, CellRange(cellSize, entities[e]), e);
      removed := RemoveCells(cells, CellRange(cellSize, entities[e]), e);
    }
    InsertCellsAt(removed, CellRange(cellSize, r), e);
  }

  // ----- the membership invariant -----

  /** Each recorded entity appears exactly once in each cell its recorded
      rectangle covers and nowhere else; unrecorded entities appear nowhere;
      every covered cell exists; no recorded rectangle is inverted. */
  ghost predicate Consistent(cellSize: real, cells: map<Cell, seq<Entity>>, entities: map<Entity, Rect>) {
    && cellSize > 0.0
    && (forall e :: e in entities ==> NonInverted(entities[e]))
    && (forall e, c :: e in entities && Covers(cellSize, entities[e], c) ==> c in cells)
    && (forall c, e :: c in cells ==>
          Count(cells[c], e) == if e in entities && Covers(cellSize, entities[e], c) then 1 else 0)
  }

  /** One cell of the insertion loop: e gains one entry exactly where r reaches. */
  lemma InsertOneCell(cellSize: real, cells: map<Cell, seq<Entity>>, entities: map<Entity, Rect>,
                      e: Entity, r: Rect, c: Cell, x: Entity)
    requires cellSize > 0.0 && e !in entities && NonInverted(r)
    requires Count(Bucket(cells, c), x) == if x in entities && Covers(cellSize, entities[x], c) then 1 else 0
    ensures var cells' := InsertCells(cells, CellRange(cellSize, r), e);
            c in cells' ==>
            Count(cells'[c], x) == if x in entities[e := r] && Covers(cellSize, entities[e := r][x], c) then 1 else 0
  {
    var coords := CellRange(cellSize, r);
    CellRangeFacts(cellSize, r);
    InsertCellsAt(cells, coords, e);
    var cells' := InsertCells(cells, coords, e);
    if c in cells' {
      assert cells'[c] == Bucket(cells', c);
      if c in coords {
        CountAppend(Bucket(cells, c), e, x);
      }
      if x != e && x in entities {
        assert entities[e := r][x] == entities[x];
      }
    }
  }

  /** Inserting an entity that is not yet recorded keeps the invariant. */
  lemma InsertKeepsConsistent(cellSize: real, cells: map<Cell, seq<Entity>>, entities: map<Entity, Rect>,
                              e: Entity, r: Rect)
    requires Consistent(cellSize, cells, entities) && e !in entities && NonInverted(r)
    ensures Consistent(cellSize, InsertCells(cells, CellRange(cellSize, r), e), entities[e := r])
  {
    var cells' := InsertCells(cells, CellRange(cellSize, r), e);
    assert forall c :: c in cells' <==> c in cells || Covers(cellSize, r, c) by {
      CellRangeFacts(cellSize, r);
      InsertCellsAt(cells, CellRange(cellSize, r), e);
    }
    forall c, x | c in cells'
      ensures Count(cells'[c], x) == if x in entities[e := r] && Covers(cellSize, entities[e := r][x], c) then 1 else 0
    {
      assert Count(Bucket(cells, c), x) == if x in entities && Covers(cellSize, entities[x], c) then 1 else 0;
      InsertOneCell(cellSize, cells, entities, e, r, c, x);
    }
  }

  /** One cell of the removal loop: only e loses its entry. */
  lemma RemoveOneCell(cellSize: real, cells: map<Cell, seq<Entity>>, entities: map<Entity, Rect>,
                      e: Entity, c: Cell, x: Entity)
    requires cellSize > 0.0 && e in entities && NonInverted(entities[e]) && c in cells
    requires Count(cells[c], x) == if x in entities && Covers(cellSize, entities[x], c) then 1 else 0
    ensures var cells' := RemoveCells(cells, CellRange(cellSize, entities[e]), e);
            c in cells' &&
            Count(cells'[c], x) == if x != e && x in entities && Covers(cellSize, entities[x], c) then 1 else 0
  {
    var coords := CellRange(cellSize, entities[e]);
    CellRangeFacts(cellSize, entities[e]);
    RemoveCellsAt(cells, coords, e);
    var cells' := RemoveCells(cells, coords, e);
    assert cells'[c] == Bucket(cells', c) && cells[c] == Bucket(cells, c);
    if c in coords {
      WithoutCount(cells[c], e, x);
    }
  }

  /** Removing e from the cells of its recorded rectangle leaves a state in
      which e is simply not recorded. */
  lemma RemoveKeepsConsistent(cellSize: real, cells: map<Cell, seq<Entity>>, entities: map<Entity, Rect>,
                              e: Entity)
    requires Consistent(cellSize, cells, entities) && e in entities
    ensures Consistent(cellSize, RemoveCells(cells, CellRange(cellSize, entities[e]), e), entities - {e})
  {
    var cells', entities' := RemoveCells(cells, CellRange(cellSize, entities[e]), e), entities - {e};
    assert cells'.Keys == cells.Keys by {
      CellRangeFacts(cellSize, entities[e]);
      RemoveCellsAt(cells, CellRange(cellSize, entities[e]), e);
    }
    RemoveCounts(cellSize, cells, entities, e);
  }

  lemma RemoveCounts(cellSize: real, cells: map<Cell, seq<Entity>>, entities: map<Entity, Rect>,
                     e: Entity)
    requires Consistent(cellSize, cells, entities) && e in entities
    ensures var cells' := RemoveCells(cells, CellRange(cellSize, entities[e]), e);
            forall c, x :: c in cells && c in cells' ==>
              Count(cells'[c], x) == if x in entities - {e} && Covers(cellSize, (entities - {e})[x], c) then 1 else 0
  {
    forall c, x | c in cells
      ensures var cells' := RemoveCells(cells, CellRange(cellSize, entities[e]), e);
              c in cells' &&
              Count(cells'[c], x) == if x in entities - {e} && Covers(cellSize, (entities - {e})[x], c) then 1 else 0
    {
      RemoveOneCell(cellSize, cells, entities, e, c, x);
      if x != e && x in entities {
        assert (entities - {e})[x] == entities[x];
      }
    }
  }

  /** `update` keeps the invariant, whatever was recorded for e before. */
  lemma UpdateKeepsConsistent(cellSize: real, cells: map<Cell, seq<Entity>>, entities: map<Entity, Rect>,
                              e: Entity, r: Rect)
    requires Consistent(cellSize, cells, entities) && NonInverted(r)
    ensures Consistent(cellSize, UpdateCells(cellSize, cells, entities, e, r), entities[e := r])
  {
    if e in entities {
      RemoveKeepsConsistent(cellSize, cells, entities, e);
      var removed := RemoveCells(cells, CellRange(cellSize, entities[e]), e);
      InsertKeepsConsistent(cellSize, removed, entities - {e}, e, r);
      assert (entities - {e})[e := r] == entities[e := r];
    } else {
      InsertKeepsConsistent(cellSize, cells, entities, e, r);
    }
  }

  /** What the invariant says about one cell and one entity. */
  lemma ConsistentAt(cellSize: real, cells: map<Cell, seq<Entity>>, entities: map<Entity, Rect>,
                     c: Cell, x: Entity)
    requires Consistent(cellSize, cells, entities)
    ensures x in entities && Covers(cellSize, entities[x], c) ==> c in cells
    ensures c in cells ==>
      Count(cells[c], x) == if x in entities && Covers(cellSize, entities[x], c) then 1 else 0
  {
  }

  /** A bucket whose only e is its last entry survives retain-then-push. */
  lemma RetainThenPush(b: seq<Entity>, e: Entity)
    requires |b| > 0 && b[|b| - 1] == e && Count(b, e) == 1
    ensures Without(b, e) + [e] == b
  {
    var front := b[..|b| - 1];
    assert b == front + [e];
    CountAppend(front, e, e);
    WithoutAbsent(front, e);
    WithoutAppend(front, e, e);
  }

  /** Calling `update(e, r)` a second time changes nothing: e was appended
      last to each of its cells, so it is removed and appended back in place. */
  lemma UpdateIdempotent(cellSize: real, cells: map<Cell, seq<Entity>>, entities: map<Entity, Rect>,
                         e: Entity, r: Rect)
    requires Consistent(cellSize, cells, entities) && NonInverted(r)
    ensures var once := UpdateCells(cellSize, cells, entities, e, r);
            UpdateCells(cellSize, once, entities[e := r], e, r) == once
  {
    var once := UpdateCells(cellSize, cells, entities, e, r);
    var entities' := entities[e := r];
    UpdateKeepsConsistent(cellSize, cells, entities, e, r);
    var twice := UpdateCells(cellSize, once, entities', e, r);
    forall c | c in twice || c in once
      ensures c in twice && c in once && twice[c] == once[c]
    {
      UpdateCellsAt(cellSize, cells, entities, e, r, c);
      UpdateCellsAt(cellSize, once, entities', e, r, c);
      ConsistentAt(cellSize, once, entities', c, e);
      if Covers(cellSize, r, c) {
        RetainThenPush(once[c], e);
      }
    }
  }

  // ----- queries -----

  /** The loops of `query`: the buckets of the listed cells, concatenated in order. */
  function Gather(cells: map<Cell, seq<Entity>>, coords: seq<Cell>): seq<Entity> {
    if |coords| == 0 then []
    else Gather(cells, coords[..|coords| - 1]) + Bucket(cells, coords[|coords| - 1])
  }

  lemma {:induction false} GatherMembership(cells: map<Cell, seq<Entity>>, coords: seq<Cell>, x: Entity)
    ensures x in Gather(cells, coords) <==> exists k :: 0 <= k < |coords| && x in Bucket(cells, coords[k])
  {
    if |coords| > 0 {
      var front := coords[..|coords| - 1];
      GatherMembership(cells, front, x);
      if x in Gather(cells, front) {
        var k :| 0 <= k < |front| && x in Bucket(cells, front[k]);
        assert coords[k] == front[k];
      }
      if exists k :: 0 <= k < |coords| && x in Bucket(cells, coords[k]) {
        var k :| 0 <= k < |coords| && x in Bucket(cells, coords[k]);
        if k < |front| {
          assert front[k] == coords[k];
        }
      }
    }
  }

  /** Under the invariant, an entity is in a cell's bucket exactly when it is
      recorded and its rectangle covers that cell. */
  lemma BucketMembership(cellSize: real, cells: map<Cell, seq<Entity>>, entities: map<Entity, Rect>,
                         c: Cell, x: Entity)
    requires Consistent(cellSize, cells, entities)
    ensures x in Bucket(cells, c) <==> x in entities && Covers(cellSize, entities[x], c)
  {
    if c in cells {
      assert Count(cells[c], x) > 0 <==> x in cells[c];
    }
  }

  /** `query(q)` returns e exactly when e is recorded and shares a cell with
      q: a broad phase, so this may include entities that do not touch q. */
  lemma QueryMembership(cellSize: real, cells: map<Cell, seq<Entity>>, entities: map<Entity, Rect>,
                        q: Rect, x: Entity)
    requires Consistent(cellSize, cells, entities) && NonInverted(q)
    ensures x in Gather(cells, CellRange(cellSize, q))
        <==> x in entities && ShareCell(cellSize, q, entities[x])
  {
    var coords := CellRange(cellSize, q);
    CellRangeFacts(cellSize, q);
    GatherMembership(cells, coords, x);
    if x in Gather(cells, coords) {
      var k :| 0 <= k < |coords| && x in Bucket(cells, coords[k]);
      BucketMembership(cellSize, cells, entities, coords[k], x);
      assert Covers(cellSize, q, coords[k]) && Covers(cellSize, entities[x], coords[k]);
    }
    if x in entities && ShareCell(cellSize, q, entities[x]) {
      var c :| Covers(cellSize, q, c) && Covers(cellSize, entities[x], c);
      assert c in coords;
      var k :| 0 <= k < |coords| && coords[k] == c;
      BucketMembership(cellSize, cells, entities, c, x);
    }
  }

  /** No false negatives: a recorded entity whose rectangle touches q is found. */
  lemma QueryFindsTouching(cellSize: real, cells: map<Cell, seq<Entity>>, entities: map<Entity, Rect>,
                           q: Rect, x: Entity)
    requires Consistent(cellSize, cells, entities) && NonInverted(q)
    requires x in entities && Touches(q, entities[x])
    ensures x in Gather(cells, CellRange(cellSize, q))
  {
    TouchingShareCell(cellSize, q, entities[x]);
    QueryMembership(cellSize, cells, entities, q, x);
  }

  /** How many of the listed cells r covers. */
  function CoveredCount(cellSize: real, coords: seq<Cell>, r: Rect): nat
    requires cellSize > 0.0
  {
    if |coords| == 0 then 0
    else CoveredCount(cellSize, coords[..|coords| - 1], r) + (if Covers(cellSize, r, coords[|coords| - 1]) then 1 else 0)
  }

  /** `query` does not deduplicate: a recorded entity occurs once per listed
      cell its rectangle covers. */
  lemma {:induction false} GatherCount(cellSize: real, cells: map<Cell, seq<Entity>>, entities: map<Entity, Rect>,
                                       coords: seq<Cell>, x: Entity)
    requires Consistent(cellSize, cells, entities)
    ensures Count(Gather(cells, coords), x) == if x in entities then CoveredCount(cellSize, coords, entities[x]) else 0
  {
    if |coords| > 0 {
      var front, c := coords[..|coords| - 1], coords[|coords| - 1];
      GatherCount(cellSize, cells, entities, front, x);
      assert multiset(Gather(cells, coords)) == multiset(Gather(cells, front)) + multiset(Bucket(cells, c));
      if c in cells {
        assert Count(Bucket(cells, c), x) == if x in entities && Covers(cellSize, entities[x], c) then 1 else 0;
      } else if x in entities {
        assert !Covers(cellSize, entities[x], c);
      }
    }
  }

  // ----- the index object -----

  class SpatialHash {
    const cellSize: real
    var cells: map<Cell, seq<Entity>>
    var entities: map<Entity, Rect>

    /** What the methods need in order to run without tripping a debug assertion. */
    ghost predicate WellFormed()
      reads this
    {
      cellSize > 0.0 && forall e :: e in entities ==> NonInverted(entities[e])
    }

    ghost predicate Valid()
      reads this
    {
      Consistent(cellSize, cells, entities)
    }

    /** `SpatialHash::new`. */
    constructor (cellSize: real)
      requires cellSize > 0.0
      ensures this.cellSize == cellSize && cells == map[] && entities == map[]
      ensures WellFormed() && Valid()
    {
      this.cellSize := cellSize;
      cells := map[];
      entities := map[];
    }

    /** `cell_coords`. */
    function CellCoords(x: real, y: real): (c: Cell)
      requires cellSize > 0.0
    {
      CellOf(cellSize, x, y)
    }

    /** `cell_coords_rect`: the nested loops over rows, then columns. */
    method CellCoordsRect(rect: Rect) returns (out: seq<Cell>)
      requires cellSize > 0.0 && NonInverted(rect)
      ensures out == CellRange(cellSize, rect)
      ensures forall c :: c in out <==> Covers(cellSize, rect, c)
      ensures RowMajorSorted(out) && NoDup(out) && |out| > 0
    {
      var (minX, minY) := CellCoords(rect.x, rect.y);
      var (maxX, maxY) := CellCoords(rect.x + rect.width, rect.y + rect.height);
      CellIndexMono(cellSize, rect.y, rect.y + rect.height);
      out := [];
      var cy := minY;
      while cy <= maxY
        invariant minY <= cy <= maxY + 1
        invariant out == Grid(minX, maxX, minY, cy - 1)
      {
        var cx := minX;
        ghost var rows := out;
        while cx <= maxX
          invariant cx == minX || minX < cx <= maxX + 1
          invariant out == rows + Row(cy, minX, cx - 1)
        {
          out := out + [(cx, cy)];
          cx := cx + 1;
        }
        cy := cy + 1;
      }
      CellRangeFacts(cellSize, rect);
    }

    /** `insert`: append e to the bucket of each covered cell and record r. */
    method Insert(e: Entity, rect: Rect)
      requires WellFormed() && NonInverted(rect)
      modifies this
      ensures cells == InsertCells(old(cells), CellRange(cellSize, rect), e)
      ensures entities == old(entities)[e := rect]
      ensures forall c :: c in cells <==> c in old(cells) || Covers(cellSize, rect, c)
      ensures forall c :: (Bucket(cells, c) ==
        if Covers(cellSize, rect, c) then Bucket(old(cells), c) + [e] else Bucket(old(cells), c))
      ensures WellFormed()
      ensures old(Valid()) && e !in old(entities) ==> Valid()
    {
      var coords := CellCoordsRect(rect);
      var k := 0;
      while k < |coords|
        invariant 0 <= k <= |coords|
        invariant cells == InsertCells(old(cells), coords[..k], e)
        invariant entities == old(entities)
      {
        var c := coords[k];
        assert coords[..k + 1][..k] == coords[..k];
        cells := cells[c := Bucket(cells, c) + [e]];
        k := k + 1;
      }
      assert coords[..k] == coords;
      entities := entities[e := rect];
      InsertCellsAt(old(cells), coords, e);
      if old(Valid()) && e !in old(entities) {
        InsertKeepsConsistent(cellSize, old(cells), old(entities), e, rect);
      }
    }

    /** `update`: remove e from the cells of its recorded rectangle (there is
        no shortcut when the cells are the same, and emptied cells stay),
        then insert it afresh. */
    method Update(e: Entity, newRect: Rect)
      requires WellFormed() && NonInverted(newRect)
      modifies this
      ensures cells == UpdateCells(cellSize, old(cells), old(entities), e, newRect)
      ensures entities == old(entities)[e := newRect]
      ensures e !in old(entities) ==> cells == InsertCells(old(cells), CellRange(cellSize, newRect), e)
      ensures forall c :: c in cells <==> c in old(cells) || Covers(cellSize, newRect, c)
      ensures forall c :: (Bucket(cells, c) ==
        var mid := if e in old(entities) && Covers(cellSize, old(entities)[e], c)
                   then Without(Bucket(old(cells), c), e) else Bucket(old(cells), c);
        if Covers(cellSize, newRect, c) then mid + [e] else mid)
      ensures WellFormed()
      ensures old(Valid()) ==> Valid()
    {
      if e in entities {
        var oldCoords := CellCoordsRect(entities[e]);
        var k := 0;
        while k < |oldCoords|
          invariant 0 <= k <= |oldCoords|
          invariant cells == RemoveCells(old(cells), oldCoords[..k], e)
          invariant entities == old(entities)
        {
          var c := oldCoords[k];
          assert oldCoords[..k + 1][..k] == oldCoords[..k];
          if c in cells {
            cells := cells[c := Without(cells[c], e)];
          }
          k := k + 1;
        }
        assert oldCoords[..k] == oldCoords;
      }
      Insert(e, newRect);
      forall c ensures
        (c in cells <==> c in old(cells) || Covers(cellSize, newRect, c)) &&
        Bucket(cells, c) ==
          var mid := if e in old(entities) && Covers(cellSize, old(entities)[e], c)
                     then Without(Bucket(old(cells), c), e) else Bucket(old(cells), c);
          if Covers(cellSize, newRect, c) then mid + [e] else mid
      {
        UpdateCellsAt(cellSize, old(cells), old(entities), e, newRect, c);
      }
      if old(Valid()) {
        UpdateKeepsConsistent(cellSize, old(cells), old(entities), e, newRect);
      }
    }

    /** `query`: the buckets of the cells of q, concatenated, duplicates kept. */
    method Query(q: Rect) returns (found: seq<Entity>)
      requires cellSize > 0.0 && NonInverted(q)
      ensures found == Gather(cells, CellRange(cellSize, q))
      ensures Valid() ==> forall x :: x in found <==> x in entities && ShareCell(cellSize, q, entities[x])
      ensures Valid() ==> forall x :: (Count(found, x) ==
        if x in entities then CoveredCount(cellSize, CellRange(cellSize, q), entities[x]) else 0)
    {
      var coords := CellCoordsRect(q);
      found := [];
      var k := 0;
      while k < |coords|
        invariant 0 <= k <= |coords|
        invariant found == Gather(cells, coords[..k])
      {
        assert coords[..k + 1][..k] == coords[..k];
        var bucket := Bucket(cells, coords[k]);
        ghost var before := found;
        var j := 0;
        while j < |bucket|
          invariant 0 <= j <= |bucket|
          invariant found == before + bucket[..j]
        {
          assert bucket[..j + 1] == bucket[..j] + [bucket[j]];
          found := found + [bucket[j]];
          j := j + 1;
        }
        assert bucket[..j] == bucket;
        k := k + 1;
      }
      assert coords[..k] == coords;
      if Valid() {
        forall x ensures x in found <==> x in entities && ShareCell(cellSize, q, entities[x]) {
          QueryMembership(cellSize, cells, entities, q, x);
        }
        forall x ensures Count(found, x) ==
          if x in entities then CoveredCount(cellSize, CellRange(cellSize, q), entities[x]) else 0
        {
          GatherCount(cellSize, cells, entities, coords, x);
        }
      }
    }
  }

  /** The unit test of the index: an entity inserted at (0, 0, 10, 10) is
      found exactly once by a query at (5, 5, 1, 1), and no longer after being
      moved to (10, 10, 10, 10). */
  method UnitTest(e: Entity) returns (c1: Cell, c2: Cell, c3: Cell, n1: nat, n2: nat)
    ensures c1 == (0, 0) && c2 == (1, 0) && c3 == (-1, -1)
    ensures n1 == 1 && n2 == 0
  {
    var hash := new SpatialHash(10.0);
    c1 := hash.CellCoords(5.0, 5.0);
    c2 := hash.CellCoords(15.0, 5.0);
    c3 := hash.CellCoords(-5.0, -5.0);
    CellOfExamples();

    var first := Rect(0.0, 0.0, 10.0, 10.0);
    var probe := Rect(5.0, 5.0, 1.0, 1.0);
    var moved := Rect(10.0, 10.0, 10.0, 10.0);
    CellIndexUnique(10.0, 0.0, 0);
    CellIndexUnique(10.0, 10.0, 1);
    CellIndexUnique(10.0, 5.0, 0);
    CellIndexUnique(10.0, 6.0, 0);
    CellIndexUnique(10.0, 20.0, 2);
    assert LowCell(10.0, probe) == (0, 0) && HighCell(10.0, probe) == (0, 0);
    assert CellRange(10.0, probe) == [(0, 0)];

    hash.Insert(e, first);
    assert Covers(10.0, first, (0, 0));
    var found := hash.Query(probe);
    assert found == Bucket(hash.cells, (0, 0)) == [e];
    n1 := |found|;

    hash.Update(e, moved);
    assert !Covers(10.0, moved, (0, 0));
    assert Without([e], e) == [];
    found := hash.Query(probe);
    assert found == Bucket(hash.cells, (0, 0)) == [];
    n2 := |found|;
  }
}
