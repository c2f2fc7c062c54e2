/** The collision resolver of `apply_velocity_system`: every mover with a
    collider is resolved in turn against the static candidates and then the
    other movers; a moving body is clamped axis by axis, X first, a
    stationary one is pushed out along the axis of least penetration. */
module Collision {
  import opened Geometry
  import opened Components
  import opened Hierarchy
  import opened SpatialHashing

  /** A mover of the query: its local position, its world transform, its
      velocity and its collider, if any. */
  datatype Mover = Mover(position: Vector2, world: GlobalTransform, velocity: Vector2, collider: Option<Collider>)

  predicate IsMoving(v: Vector2) {
    v.x != 0.0 || v.y != 0.0
  }

  // ----- one obstacle -----

  /** The X clamp of a moving body against one obstacle: on strict overlap
      it stops flush against the obstacle's near edge. */
  function ClampX(r: Rect, vx: real, o: Rect): (r': Rect)
    ensures r'.y == r.y && r'.width == r.width && r'.height == r.height
    ensures !CollidesRect(r, o) || vx == 0.0 ==> r' == r
    ensures CollidesRect(r, o) && vx > 0.0 ==> r'.x + r'.width == o.x && r'.x < r.x
    ensures CollidesRect(r, o) && vx < 0.0 ==> r'.x == o.x + o.width && r'.x > r.x
    ensures vx != 0.0 ==> !CollidesRect(r', o)
  {
    if CollidesRect(r, o) then
      if vx > 0.0 then r.(x := o.x - r.width)
      else if vx < 0.0 then r.(x := o.x + o.width)
      else r
    else r
  }

  /** The Y clamp, the same rule on the other axis. */
  function ClampY(r: Rect, vy: real, o: Rect): (r': Rect)
    ensures r'.x == r.x && r'.width == r.width && r'.height == r.height
    ensures !CollidesRect(r, o) || vy == 0.0 ==> r' == r
    ensures CollidesRect(r, o) && vy > 0.0 ==> r'.y + r'.height == o.y && r'.y < r.y
    ensures CollidesRect(r, o) && vy < 0.0 ==> r'.y == o.y + o.height && r'.y > r.y
    ensures vy != 0.0 ==> !CollidesRect(r', o)
  {
    if CollidesRect(r, o) then
      if vy > 0.0 then r.(y := o.y - r.height)
      else if vy < 0.0 then r.(y := o.y + o.height)
      else r
    else r
  }

  /** The push of a stationary body out of one obstacle: by the penetration
      depth, along X only when it is strictly the shallower axis (ties go to
      Y), away from the obstacle's centre (towards minus when the centres
      coincide). Afterwards the centres are exactly half the summed extents
      apart on that axis, so the two no longer overlap. */
  function PushOut(r: Rect, o: Rect): (r': Rect)
    ensures r'.width == r.width && r'.height == r.height
    ensures !CollidesRect(r, o) ==> r' == r
    ensures CollidesRect(r, o) && IntersectX(r, o) < IntersectY(r, o) ==>
              r'.y == r.y && Abs(CentreDeltaX(r', o)) == (r.width + o.width) / 2.0 &&
              (r'.x > r.x <==> CentreDeltaX(r, o) > 0.0) && r'.x != r.x
    ensures CollidesRect(r, o) && IntersectX(r, o) >= IntersectY(r, o) ==>
              r'.x == r.x && Abs(CentreDeltaY(r', o)) == (r.height + o.height) / 2.0 &&
              (r'.y > r.y <==> CentreDeltaY(r, o) > 0.0) && r'.y != r.y
    ensures !CollidesRect(r', o)
  {
    CollidesIffPositiveIntersect(r, o);
    if CollidesRect(r, o) then
      var dx, dy := CentreDeltaX(r, o), CentreDeltaY(r, o);
      var ix, iy := IntersectX(r, o), IntersectY(r, o);
      var r' := if ix < iy then (if dx > 0.0 then r.(x := r.x + ix) else r.(x := r.x - ix))
                else (if dy > 0.0 then r.(y := r.y + iy) else r.(y := r.y - iy));
      CollidesIffPositiveIntersect(r', o);
      r'
    else r
  }

  // ----- a sequence of obstacles, in order -----

  /** The X clamps against each obstacle in turn. */
  function ClampAllX(r: Rect, vx: real, obs: seq<Rect>): (r': Rect)
    ensures r'.y == r.y && r'.width == r.width && r'.height == r.height
    ensures vx == 0.0 ==> r' == r
    ensures vx > 0.0 ==> r'.x <= r.x
    ensures vx < 0.0 ==> r'.x >= r.x
    ensures vx != 0.0 && |obs| > 0 ==> !CollidesRect(r', obs[|obs| - 1])
  {
    if |obs| == 0 then r else ClampX(ClampAllX(r, vx, obs[..|obs| - 1]), vx, obs[|obs| - 1])
  }

  function ClampAllY(r: Rect, vy: real, obs: seq<Rect>): (r': Rect)
    ensures r'.x == r.x && r'.width == r.width && r'.height == r.height
    ensures vy == 0.0 ==> r' == r
    ensures vy > 0.0 ==> r'.y <= r.y
    ensures vy < 0.0 ==> r'.y >= r.y
    ensures vy != 0.0 && |obs| > 0 ==> !CollidesRect(r', obs[|obs| - 1])
  {
    if |obs| == 0 then r else ClampY(ClampAllY(r, vy, obs[..|obs| - 1]), vy, obs[|obs| - 1])
  }

  /** The pushes against each obstacle in turn. */
  function PushAll(r: Rect, obs: seq<Rect>): (r': Rect)
    ensures r'.width == r.width && r'.height == r.height
    ensures |obs| > 0 ==> !CollidesRect(r', obs[|obs| - 1])
    ensures (forall i :: 0 <= i < |obs| ==> !CollidesRect(r, obs[i])) ==> r' == r
  {
    if |obs| == 0 then r else PushOut(PushAll(r, obs[..|obs| - 1]), obs[|obs| - 1])
  }

  /** The rectangles of the other movers, in order. */
  function RectsOf(others: seq<(Rect, Vector2)>): (rs: seq<Rect>)
    ensures |rs| == |others| && forall i :: 0 <= i < |others| ==> rs[i] == others[i].0
  {
    seq(|others|, i requires 0 <= i < |others| => others[i].0)
  }

  /** The rectangles of the other movers whose own velocity is zero: a
      stationary body ignores moving ones, which handle the contact
      themselves. */
  function Still(others: seq<(Rect, Vector2)>): (rs: seq<Rect>)
    ensures forall o :: o in rs <==> exists i :: 0 <= i < |others| && others[i].0 == o && !IsMoving(others[i].1)
  {
    if |others| == 0 then []
    else
      var front := Still(others[..|others| - 1]);
      var last := others[|others| - 1];
      assert forall i :: 0 <= i < |others| - 1 ==> others[..|others| - 1][i] == others[i];
      if IsMoving(last.1) then front else front + [last.0]
  }

  /** One mover of the loop: `r` is its rectangle at that moment, `statics`
      its static candidates and `others` the other movers (earlier ones
      already resolved, later ones not yet) with their velocities. */
  function ResolveRect(r: Rect, v: Vector2, statics: seq<Rect>, others: seq<(Rect, Vector2)>): (r': Rect)
    ensures r'.width == r.width && r'.height == r.height
  {
    if IsMoving(v) then
      var rx := ClampAllX(ClampAllX(r.(x := r.x + v.x), v.x, statics), v.x, RectsOf(others));
      ClampAllY(ClampAllY(rx.(y := rx.y + v.y), v.y, statics), v.y, RectsOf(others))
    else
      PushAll(PushAll(r, statics), Still(others))
  }

  /** A moving body never ends beyond where its velocity takes it, and not
      at all off its starting line on an axis with zero velocity. */
  lemma ResolveRectBounds(r: Rect, v: Vector2, statics: seq<Rect>, others: seq<(Rect, Vector2)>)
    requires IsMoving(v)
    ensures var r' := ResolveRect(r, v, statics, others);
            && (v.x > 0.0 ==> r'.x <= r.x + v.x) && (v.x < 0.0 ==> r'.x >= r.x + v.x) && (v.x == 0.0 ==> r'.x == r.x)
            && (v.y > 0.0 ==> r'.y <= r.y + v.y) && (v.y < 0.0 ==> r'.y >= r.y + v.y) && (v.y == 0.0 ==> r'.y == r.y)
  {
  }

  /** A moving body with a nonzero Y velocity ends clear of the last
      obstacle of the Y pass. */
  lemma ResolveRectClearsLast(r: Rect, v: Vector2, statics: seq<Rect>, others: seq<(Rect, Vector2)>)
    requires v.y != 0.0
    ensures |others| > 0 ==> !CollidesRect(ResolveRect(r, v, statics, others), others[|others| - 1].0)
    ensures |others| == 0 && |statics| > 0 ==>
              !CollidesRect(ResolveRect(r, v, statics, others), statics[|statics| - 1])
  {
    assert IsMoving(v);
    if |others| == 0 {
      assert RectsOf(others) == [];
    }
  }

  /** A stationary body that overlaps nothing stays put. */
  lemma StationaryClearStays(r: Rect, v: Vector2, statics: seq<Rect>, others: seq<(Rect, Vector2)>)
    requires !IsMoving(v)
    requires forall i :: 0 <= i < |statics| ==> !CollidesRect(r, statics[i])
    requires forall i :: 0 <= i < |others| ==> !CollidesRect(r, others[i].0)
    ensures ResolveRect(r, v, statics, others) == r
  {
    var st := Still(others);
    forall i | 0 <= i < |st|
      ensures !CollidesRect(r, st[i])
    {
      assert st[i] in st;
    }
  }

  // ----- the loop over the movers -----

  /** The other movers seen from mover i: those before it (already
      resolved) and those after it (not yet), with their velocities. */
  function Others(cur: seq<Rect>, vels: seq<Vector2>, i: nat): (os: seq<(Rect, Vector2)>)
    requires i < |cur| == |vels|
    ensures |os| == |cur| - 1
    ensures forall k {:trigger os[k]} :: 0 <= k < |os| ==>
              os[k] == if k < i then (cur[k], vels[k]) else (cur[k + 1], vels[k + 1])
  {
    var ps := seq(|cur|, j requires 0 <= j < |cur| => (cur[j], vels[j]));
    ps[..i] + ps[i + 1..]
  }

  /** Step i of the loop: mover i is resolved, nobody else moves. */
  function Step(cur: seq<Rect>, vels: seq<Vector2>, statics: seq<Rect>, i: nat): (next: seq<Rect>)
    requires i < |cur| == |vels|
    ensures |next| == |cur|
    ensures forall j :: 0 <= j < |cur| && j != i ==> next[j] == cur[j]
    ensures next[i] == ResolveRect(cur[i], vels[i], statics, Others(cur, vels, i))
  {
    cur[i := ResolveRect(cur[i], vels[i], statics, Others(cur, vels, i))]
  }

  /** The collider rectangles after the first n movers have been resolved,
      mover i against its static candidates staticsOf[i]. */
  function Resolved(rects: seq<Rect>, vels: seq<Vector2>, staticsOf: seq<seq<Rect>>, n: nat): (cur: seq<Rect>)
    requires n <= |rects| == |vels| == |staticsOf|
    ensures |cur| == |rects|
    ensures forall j :: n <= j < |rects| ==> cur[j] == rects[j]
  {
    if n == 0 then rects else Step(Resolved(rects, vels, staticsOf, n - 1), vels, staticsOf[n - 1], n - 1)
  }

  /** Resolution moves rectangles but never resizes them. */
  lemma {:induction false} ResolvedKeepsSizes(rects: seq<Rect>, vels: seq<Vector2>, staticsOf: seq<seq<Rect>>, n: nat)
    requires n <= |rects| == |vels| == |staticsOf|
    ensures forall j :: 0 <= j < |rects| ==>
              Resolved(rects, vels, staticsOf, n)[j].width == rects[j].width &&
              Resolved(rects, vels, staticsOf, n)[j].height == rects[j].height
    decreases n
  {
    if n > 0 {
      ResolvedKeepsSizes(rects, vels, staticsOf, n - 1);
    }
  }

  /** Turn n - 1 moves mover n - 1 only. */
  lemma ResolvedFrame(rects: seq<Rect>, vels: seq<Vector2>, staticsOf: seq<seq<Rect>>, j: nat, n: nat)
    requires j + 1 < n <= |rects| == |vels| == |staticsOf|
    ensures Resolved(rects, vels, staticsOf, n)[j] == Resolved(rects, vels, staticsOf, n - 1)[j]
  {
    var before := Resolved(rects, vels, staticsOf, n - 1);
    assert Resolved(rects, vels, staticsOf, n)[j] == Step(before, vels, staticsOf[n - 1], n - 1)[j];
  }

  /** A mover is final once its turn is over: later turns move only
      themselves. */
  lemma {:induction false} ResolvedSettles(rects: seq<Rect>, vels: seq<Vector2>, staticsOf: seq<seq<Rect>>,
                                           j: nat, n: nat)
    requires j < n <= |rects| == |vels| == |staticsOf|
    ensures Resolved(rects, vels, staticsOf, n)[j] == Resolved(rects, vels, staticsOf, j + 1)[j]
    decreases n
  {
    if n > j + 1 {
      ResolvedSettles(rects, vels, staticsOf, j, n - 1);
      ResolvedFrame(rects, vels, staticsOf, j, n);
      assert Resolved(rects, vels, staticsOf, n)[j] == Resolved(rects, vels, staticsOf, n - 1)[j]
          == Resolved(rects, vels, staticsOf, j + 1)[j];
    }
  }

  /** In mover j's turn it starts from its original rectangle and meets the
      earlier movers in their final places. */
  lemma ResolvedTurn(rects: seq<Rect>, vels: seq<Vector2>, staticsOf: seq<seq<Rect>>, j: nat)
    requires j < |rects| == |vels| == |staticsOf|
    ensures var before := Resolved(rects, vels, staticsOf, j);
            Resolved(rects, vels, staticsOf, |rects|)[j] ==
              ResolveRect(rects[j], vels[j], staticsOf[j], Others(before, vels, j))
    ensures forall k :: 0 <= k < j ==>
              Resolved(rects, vels, staticsOf, j)[k] == Resolved(rects, vels, staticsOf, |rects|)[k]
  {
    ResolvedSettles(rects, vels, staticsOf, j, |rects|);
    forall k | 0 <= k < j
      ensures Resolved(rects, vels, staticsOf, j)[k] == Resolved(rects, vels, staticsOf, |rects|)[k]
    {
      ResolvedSettles(rects, vels, staticsOf, k, j);
      ResolvedSettles(rects, vels, staticsOf, k, |rects|);
    }
  }

  /** The X pass against a list of obstacles. */
  method ClampPassX(r: Rect, vx: real, obs: seq<Rect>) returns (r': Rect)
    ensures r' == ClampAllX(r, vx, obs)
  {
    r' := r;
    var k := 0;
    while k < |obs|
      invariant 0 <= k <= |obs|
      invariant r' == ClampAllX(r, vx, obs[..k])
    {
      assert obs[..k + 1][..k] == obs[..k];
      r' := ClampX(r', vx, obs[k]);
      k := k + 1;
    }
    assert obs[..k] == obs;
  }

  /** The Y pass against a list of obstacles. */
  method ClampPassY(r: Rect, vy: real, obs: seq<Rect>) returns (r': Rect)
    ensures r' == ClampAllY(r, vy, obs)
  {
    r' := r;
    var k := 0;
    while k < |obs|
      invariant 0 <= k <= |obs|
      invariant r' == ClampAllY(r, vy, obs[..k])
    {
      assert obs[..k + 1][..k] == obs[..k];
      r' := ClampY(r', vy, obs[k]);
      k := k + 1;
    }
    assert obs[..k] == obs;
  }

  /** The stationary pass against the static candidates. */
  method PushPass(r: Rect, obs: seq<Rect>) returns (r': Rect)
    ensures r' == PushAll(r, obs)
  {
    r' := r;
    var k := 0;
    while k < |obs|
      invariant 0 <= k <= |obs|
      invariant r' == PushAll(r, obs[..k])
    {
      assert obs[..k + 1][..k] == obs[..k];
      r' := PushOut(r', obs[k]);
      k := k + 1;
    }
    assert obs[..k] == obs;
  }

  /** The stationary pass against the other movers, skipping moving ones. */
  method PushPassStill(r: Rect, others: seq<(Rect, Vector2)>) returns (r': Rect)
    ensures r' == PushAll(r, Still(others))
  {
    r' := r;
    var k := 0;
    while k < |others|
      invariant 0 <= k <= |others|
      invariant r' == PushAll(r, Still(others[..k]))
    {
      assert others[..k + 1][..k] == others[..k];
      var still := Still(others[..k]);
      if !IsMoving(others[k].1) {
        assert (still + [others[k].0])[..|still|] == still;
        r' := PushOut(r', others[k].0);
      }
      k := k + 1;
    }
    assert others[..k] == others;
  }

  /** The body of the loop for one mover. */
  method ResolveBody(r: Rect, v: Vector2, statics: seq<Rect>, others: seq<(Rect, Vector2)>) returns (r': Rect)
    ensures r' == ResolveRect(r, v, statics, others)
  {
    if v.x != 0.0 || v.y != 0.0 {
      r' := r.(x := r.x + v.x);
      r' := ClampPassX(r', v.x, statics);
      r' := ClampPassX(r', v.x, RectsOf(others));
      r' := r'.(y := r'.y + v.y);
      r' := ClampPassY(r', v.y, statics);
      r' := ClampPassY(r', v.y, RectsOf(others));
    } else {
      r' := PushPass(r, statics);
      r' := PushPassStill(r', others);
    }
  }

  /** Mover i's turn on the array of collider rectangles. */
  method Resolve(rects: array<Rect>, vels: seq<Vector2>, statics: seq<Rect>, i: nat)
    requires i < rects.Length == |vels|
    modifies rects
    ensures rects[..] == Step(old(rects[..]), vels, statics, i)
  {
    var r := ResolveBody(rects[i], vels[i], statics, Others(rects[..], vels, i));
    rects[i] := r;
  }

  // ----- the two systems -----

  /** The movers' collider rectangles and velocities, with the index of the
      mover each belongs to, in query order: the `filter_map` that collects
      `moving_rects`. */
  function Bodies(movers: seq<Mover>): (bs: seq<(nat, Rect, Vector2)>)
    ensures |bs| <= |movers|
    ensures forall j :: 0 <= j < |bs| ==>
              bs[j].0 < |movers| && movers[bs[j].0].collider.Some? &&
              bs[j].1 == ColliderRect(movers[bs[j].0].collider.value, movers[bs[j].0].world) &&
              bs[j].2 == movers[bs[j].0].velocity
    ensures forall j, j' :: 0 <= j < j' < |bs| ==> bs[j].0 < bs[j'].0
  {
    if |movers| == 0 then []
    else
      var n := |movers| - 1;
      var front := Bodies(movers[..n]);
      assert forall k :: 0 <= k < n ==> movers[..n][k] == movers[k];
      match movers[n].collider
      case None => front
      case Some(c) => front + [(n, ColliderRect(c, movers[n].world), movers[n].velocity)]
  }

  /** Every mover with a collider has its body. */
  lemma {:induction false} BodiesCover(movers: seq<Mover>, k: nat)
    requires k < |movers| && movers[k].collider.Some?
    ensures exists j :: 0 <= j < |Bodies(movers)| && Bodies(movers)[j].0 == k
    decreases |movers|
  {
    var n := |movers| - 1;
    assert forall i :: 0 <= i < n ==> movers[..n][i] == movers[i];
    var front := Bodies(movers[..n]);
    if k == n {
      assert Bodies(movers)[|front|].0 == k;
    } else {
      BodiesCover(movers[..n], k);
      var j :| 0 <= j < |front| && front[j].0 == k;
      assert Bodies(movers)[j] == front[j];
    }
  }

  function RectsOfBodies(bs: seq<(nat, Rect, Vector2)>): (rs: seq<Rect>)
    ensures |rs| == |bs| && forall j :: 0 <= j < |bs| ==> rs[j] == bs[j].1
  {
    seq(|bs|, j requires 0 <= j < |bs| => bs[j].1)
  }

  function VelsOfBodies(bs: seq<(nat, Rect, Vector2)>): (vs: seq<Vector2>)
    ensures |vs| == |bs| && forall j :: 0 <= j < |bs| ==> vs[j] == bs[j].2
  {
    seq(|bs|, j requires 0 <= j < |bs| => bs[j].2)
  }

  /** The static candidates of one mover: the entities the spatial hash
      returns, in order and with repeats, kept when the static-collider query
      (a collider and a world transform but no velocity) matches them. */
  function Candidates(found: seq<Entity>, statics: map<Entity, (Collider, GlobalTransform)>): (rs: seq<Rect>)
    ensures |rs| <= |found|
    ensures forall o :: o in rs <==>
              exists i :: 0 <= i < |found| && found[i] in statics &&
                          o == ColliderRect(statics[found[i]].0, statics[found[i]].1)
  {
    if |found| == 0 then []
    else
      var n := |found| - 1;
      assert forall i :: 0 <= i < n ==> found[..n][i] == found[i];
      var front := Candidates(found[..n], statics);
      if found[n] in statics then front + [ColliderRect(statics[found[n]].0, statics[found[n]].1)] else front
  }

  /** The static candidates of every mover in the spatial-hash variant. */
  function QueriedStatics(cellSize: real, cells: map<Cell, seq<Entity>>,
                          statics: map<Entity, (Collider, GlobalTransform)>, rects: seq<Rect>): (st: seq<seq<Rect>>)
    requires cellSize > 0.0
    ensures |st| == |rects|
    ensures forall j :: 0 <= j < |rects| ==> st[j] == Candidates(Gather(cells, CellRange(cellSize, rects[j])), statics)
  {
    seq(|rects|, j requires 0 <= j < |rects| => Candidates(Gather(cells, CellRange(cellSize, rects[j])), statics))
  }

  /** The static candidates of the brute-force variant: the rows of the
      static-collider query, in iteration order, whose entity is marked
      OnScreen. */
  function OnScreenStatics(rows: seq<(Entity, Collider, GlobalTransform)>, onScreen: set<Entity>): (rs: seq<Rect>)
    ensures |rs| <= |rows|
    ensures forall o :: o in rs <==>
              exists i :: 0 <= i < |rows| && rows[i].0 in onScreen && o == ColliderRect(rows[i].1, rows[i].2)
  {
    if |rows| == 0 then []
    else
      var n := |rows| - 1;
      assert forall i :: 0 <= i < n ==> rows[..n][i] == rows[i];
      var front := OnScreenStatics(rows[..n], onScreen);
      if rows[n].0 in onScreen then front + [ColliderRect(rows[n].1, rows[n].2)] else front
  }

  /** The same candidates for each of n movers. */
  function Repeated(statics: seq<Rect>, n: nat): (st: seq<seq<Rect>>)
    ensures |st| == n && forall j :: 0 <= j < n ==> st[j] == statics
  {
    seq(n, _ => statics)
  }

  /** The positions after the first i turns, `cur` being the collider
      rectangles then: colliderless movers have moved by their velocity, a
      mover whose turn is over by the displacement its rectangle underwent,
      and the others not yet. */
  ghost predicate Progress(movers: seq<Mover>, positions: seq<Vector2>, cur: seq<Rect>, i: nat) {
    var bs := Bodies(movers);
    && |positions| == |movers| && |cur| == |bs| && i <= |bs|
    && (forall k :: 0 <= k < |movers| && movers[k].collider.None? ==>
          positions[k] == Add(movers[k].position, movers[k].velocity))
    && (forall j :: i <= j < |bs| ==> positions[bs[j].0] == movers[bs[j].0].position)
    && (forall j :: 0 <= j < i ==>
          positions[bs[j].0] == Add(movers[bs[j].0].position, Sub(Position(cur[j]), Position(bs[j].1))))
  }

  /** The positions every mover ends with, `final` being the resolved
      collider rectangles. */
  ghost predicate Moved(movers: seq<Mover>, final: seq<Rect>, positions: seq<Vector2>) {
    Progress(movers, positions, final, |Bodies(movers)|)
  }

  /** The first pass: each colliderless mover moves by its velocity, the
      others are collected. */
  method CollectBodies(movers: seq<Mover>) returns (positions: seq<Vector2>, bs: seq<(nat, Rect, Vector2)>)
    ensures bs == Bodies(movers)
    ensures Progress(movers, positions, RectsOfBodies(bs), 0)
  {
    positions, bs := [], [];
    var k := 0;
    while k < |movers|
      invariant 0 <= k <= |movers|
      invariant bs == Bodies(movers[..k])
      invariant |positions| == k
      invariant forall j :: 0 <= j < k ==>
                  positions[j] == if movers[j].collider.None? then Add(movers[j].position, movers[j].velocity)
                                  else movers[j].position
    {
      assert movers[..k + 1][..k] == movers[..k];
      var m := movers[k];
      match m.collider {
        case None =>
          positions := positions + [Add(m.position, m.velocity)];
        case Some(c) =>
          positions := positions + [m.position];
          bs := bs + [(k, ColliderRect(c, m.world), m.velocity)];
      }
      k := k + 1;
    }
    assert movers[..k] == movers;
  }

  /** The bookkeeping of mover i's turn: its rectangle becomes `next[i]`
      and its transform moves by the same displacement. */
  lemma ProgressStep(movers: seq<Mover>, positions: seq<Vector2>, cur: seq<Rect>, next: seq<Rect>, i: nat)
    requires Progress(movers, positions, cur, i) && i < |cur| && |next| == |cur|
    requires forall j :: 0 <= j < |cur| && j != i ==> next[j] == cur[j]
    ensures var bs := Bodies(movers);
            var k := bs[i].0;
            Progress(movers, positions[k := Add(positions[k], Sub(Position(next[i]), Position(bs[i].1)))], next, i + 1)
  {
    var bs := Bodies(movers);
    forall j | 0 <= j < |bs| && j != i
      ensures bs[j].0 != bs[i].0
    {
      if j < i { assert bs[j].0 < bs[i].0; } else { assert bs[i].0 < bs[j].0; }
    }
  }

  /** Mover i's turn: its rectangle is resolved in place against
      `statics` and its displacement added to its transform. */
  method Turn(rects: array<Rect>, movers: seq<Mover>, positions: seq<Vector2>, statics: seq<Rect>,
              ghost staticsOf: seq<seq<Rect>>, i: nat)
    returns (positions': seq<Vector2>)
    requires var bs := Bodies(movers);
             rects.Length == |bs| == |staticsOf| && i < |bs| && staticsOf[i] == statics &&
             rects[..] == Resolved(RectsOfBodies(bs), VelsOfBodies(bs), staticsOf, i)
    requires Progress(movers, positions, rects[..], i)
    modifies rects
    ensures var bs := Bodies(movers);
            rects[..] == Resolved(RectsOfBodies(bs), VelsOfBodies(bs), staticsOf, i + 1)
    ensures Progress(movers, positions', rects[..], i + 1)
  {
    var bs := Bodies(movers);
    ghost var cur := rects[..];
    Resolve(rects, VelsOfBodies(bs), statics, i);
    ProgressStep(movers, positions, cur, rects[..], i);
    var k := bs[i].0;
    positions' := positions[k := Add(positions[k], Sub(Position(rects[i]), Position(bs[i].1)))];
  }

  /** `apply_velocity_system` of the systems module: each mover's static
      candidates come from a spatial-hash query of its rectangle at the start
      of its turn. */
  method ApplyVelocity(movers: seq<Mover>, statics: map<Entity, (Collider, GlobalTransform)>, hash: SpatialHash)
    returns (positions: seq<Vector2>)
    requires hash.cellSize > 0.0
    requires forall k :: 0 <= k < |movers| && movers[k].collider.Some? ==>
               NonInverted(ColliderRect(movers[k].collider.value, movers[k].world))
    ensures var bs := Bodies(movers);
            var rs := RectsOfBodies(bs);
            Moved(movers, Resolved(rs, VelsOfBodies(bs), QueriedStatics(hash.cellSize, hash.cells, statics, rs), |bs|),
                  positions)
  {
    var bs;
    positions, bs := CollectBodies(movers);
    var rs := RectsOfBodies(bs);
    ghost var st := QueriedStatics(hash.cellSize, hash.cells, statics, rs);
    var rects := new Rect[|bs|](j requires 0 <= j < |bs| => rs[j]);
    assert rects[..] == rs;
    var i := 0;
    while i < |bs|
      invariant 0 <= i <= |bs|
      invariant rects[..] == Resolved(rs, VelsOfBodies(bs), st, i)
      invariant Progress(movers, positions, rects[..], i)
    {
      var found := hash.Query(rects[i]);
      positions := Turn(rects, movers, positions, Candidates(found, statics), st, i);
      i := i + 1;
    }
  }

  /** The mover loop of the main module, every mover against the
      same static candidates. */
  method ResolveAgainst(movers: seq<Mover>, statics: seq<Rect>) returns (positions: seq<Vector2>)
    ensures var bs := Bodies(movers);
            Moved(movers, Resolved(RectsOfBodies(bs), VelsOfBodies(bs), Repeated(statics, |bs|), |bs|), positions)
  {
    var bs;
    positions, bs := CollectBodies(movers);
    var rs := RectsOfBodies(bs);
    ghost var st := Repeated(statics, |bs|);
    var rects := new Rect[|bs|](j requires 0 <= j < |bs| => rs[j]);
    assert rects[..] == rs;
    var i := 0;
    while i < |bs|
      invariant 0 <= i <= |bs|
      invariant rects[..] == Resolved(rs, VelsOfBodies(bs), st, i)
      invariant Progress(movers, positions, rects[..], i)
    {
      positions := Turn(rects, movers, positions, statics, st, i);
      i := i + 1;
    }
  }

  /** `apply_velocity_system` of the main module: every mover is
      checked against all OnScreen static colliders, collected once. */
  method ApplyVelocityBruteForce(movers: seq<Mover>, rows: seq<(Entity, Collider, GlobalTransform)>,
                                 onScreen: set<Entity>)
    returns (positions: seq<Vector2>)
    ensures var bs := Bodies(movers);
            var statics := OnScreenStatics(rows, onScreen);
            Moved(movers, Resolved(RectsOfBodies(bs), VelsOfBodies(bs), Repeated(statics, |bs|), |bs|), positions)
  {
    var statics := OnScreenStatics(rows, onScreen);
    positions := ResolveAgainst(movers, statics);
  }
}
