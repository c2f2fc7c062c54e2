# Simulation core of a Bevy-ECS toy engine, in Dafny

This project models the simulation core of a small 2D engine built on an
entity-component store. Every fixed step the engine:

- propagates local transforms down the parent -> children forest into world
  ("global") transforms;
- keeps colliders and a uniform-grid spatial index ("spatial hash") in step
  with the sprites;
- resolves the movement of every body with a velocity against static
  colliders and the other movers;
- marks the entities around the camera as on screen.

The systems exist in two versions, and both are modelled:

- The systems module (`src/systems.rs`) queries the spatial hash for the
  obstacles of each mover.
- The main module (`src/main.rs`) defines its own copies of the systems,
  and these are the ones it registers; it declares only the `components`,
  `resources` and `spatial_hash` modules (src/main.rs:10-12), so the systems
  module's version is not the one the program runs. The main module's
  version checks every mover against all on-screen static colliders, and
  its transform propagation starts from the changed entities.

The main loop's fixed-timestep accumulator is modelled as well.

Coordinates are exact `real`s in place of `f32`. `rem_euclid(360)` is
`x - 360 * floor(x / 360)`, and `cell_coords` is `real.Floor` of the quotient.

The entity store is replaced by explicit values:

- components are maps from entity ids (`nat`);
- the iteration order of a query is a sequence passed in;
- deferred commands become ordered updates of a set or map.

Modules, one per concern:

- `Geometry`: vectors, rectangles, the overlap test.
- `Components`: transforms, sprite origins, colliders.
- `SpatialHashing`: the grid index. `SpatialHash` is a class whose `cells`
  and `entities` maps are updated in place.
- `Hierarchy` and `Propagation`: the propagation pass of the systems
  module.
- `ChangedPropagation`: the propagation pass of the main module, with
  `ChangedPropagationExamples` holding concrete runs of it.
- `Collision`: the velocity resolver of both versions. It runs on an `array` of
  collider rectangles, one turn per mover.
- `Visibility`: the camera zoom and the on-screen marks.
- `SpriteSync`: collider offsets and the spatial-hash records of sprites.
- `Timestep`: the fixed-step accumulator.

`Geometry.CollidesRect` is an ASSUMED definition. `Rectangle::collides_rect`
belongs to the rendering crate, which is not part of this model. It is taken
to be strict overlap on both axes, as raylib's `CheckCollisionRecs` defines
it.

## Model

| member | source | states |
|---|---|---|
| Geometry.CollidesIffPositiveIntersect | src/systems.rs:199-208 | two rectangles strictly overlap exactly when the penetration depth the resolver computes is positive on both axes |
| Components.WrapDegrees | src/components.rs:161 | the wrapped angle lies in [0, 360) and differs from the input by a whole number of turns |
| Components.WrapDegreesUnique | src/components.rs:161 | the wrapped angle is the only angle in [0, 360) pointing the same way as the input |
| Components.WrapDegreesAbsorbs | src/components.rs:158-172 | wrapping a partial sum before adding the next rotation gives the same wrapped total |
| Components.FromLocal | src/components.rs:158-164 | world position = parent position + local position; scale is the component-wise product; rotation is in [0, 360) and congruent to the sum of the two rotations modulo 360 |
| Components.FromRoot | src/components.rs:166-172 | position and scale are copied; rotation is in [0, 360) and congruent to the local rotation |
| Components.FromLocalOfDefaultIsFromRoot | src/components.rs:158-183 | composing with the default world transform is the same as from_root |
| Components.FromRootKeepsNormalisedRotation | src/components.rs:166-172 | a rotation already in [0, 360) is kept as it is |
| Components.DefaultsAgree | src/components.rs:140-148 | from_root of the default local transform is the default world transform (position 0, rotation 0, scale 1) |
| Components.ChainOfThree | src/components.rs:158-172 | along root -> A -> B with no rotation and unit scale, B's world position is the sum of the three local positions, with rotation 0 and scale 1 |
| Components.ChainRotation | src/components.rs:158-172 | a grandchild's rotation is the wrapped sum of all three local rotations |
| Components.OriginVector | src/components.rs:79-96 | every anchor lies in the unit square; a custom origin satisfying the debug assertions is returned as given; the named origins use only 0, 1/2 and 1, and each one's edge (left, top, right, bottom) is identified exactly |
| Components.NamedOriginsDistinct | src/components.rs:79-89 | two different named origins give different anchors |
| SpatialHashing.CellIndexBounds | src/spatial_hash.rs:22-26 | the cell index n of a coordinate v, which `SpatialHashing.SpatialHash.CellCoords` takes for each axis, satisfies n * size <= v < (n + 1) * size |
| SpatialHashing.CellIndexUnique | src/spatial_hash.rs:22-26 | an n with n * size <= v < (n + 1) * size is the cell index, so it pins down what `SpatialHashing.SpatialHash.CellCoords` returns on each axis |
| SpatialHashing.CellIndexMono | src/spatial_hash.rs:22-26 | cell indices do not decrease with the coordinate |
| SpatialHashing.CellOfExamples | src/spatial_hash.rs:86-89 | with a cell size of 10, the points (5, 5), (15, 5) and (-5, -5) lie in cells (0, 0), (1, 0) and (-1, -1) |
| SpatialHashing.CellRangeFacts | src/spatial_hash.rs:28-40 | a non-inverted rectangle's cell list holds exactly the cells from the cell of its low corner to the cell of its far corner, in row-major order, without duplicates, and is never empty |
| SpatialHashing.CoversIffMeetsCell | src/spatial_hash.rs:28-40 | a cell is listed exactly when its half-open square meets the closed rectangle, so the far edge counts |
| SpatialHashing.TouchingShareCell | src/spatial_hash.rs:28-40 | rectangles that touch, even only along an edge, have a listed cell in common |
| SpatialHashing.WithoutCount | src/spatial_hash.rs:55 | `retain` drops every occurrence of the entity and keeps every other entity as often as before |
| SpatialHashing.InsertCellsAt | src/spatial_hash.rs:43-46 | the insertion loop appends the entity once to the bucket of each listed cell, creates missing cells, and leaves every other cell as it was |
| SpatialHashing.RemoveCellsAt | src/spatial_hash.rs:52-57 | the removal loop deletes the entity from each listed existing cell, keeps emptied cells, and creates or deletes no cell |
| SpatialHashing.UpdateCellsAt | src/spatial_hash.rs:50-62 | after update each cell holds its old entries minus the entity where the old rectangle reached, with the entity appended once where the new rectangle reaches; no cell is deleted |
| SpatialHashing.InsertKeepsConsistent | src/spatial_hash.rs:42-48 | inserting an entity not yet recorded keeps the invariant that each recorded entity appears exactly once in each covered cell and nowhere else |
| SpatialHashing.UpdateKeepsConsistent | src/spatial_hash.rs:50-62 | update keeps that invariant for every entity, recorded or not |
| SpatialHashing.UpdateIdempotent | src/spatial_hash.rs:50-62 | a second update with the same rectangle leaves the index unchanged |
| SpatialHashing.GatherMembership | src/spatial_hash.rs:64-77 | an entity is in the concatenation of the buckets exactly when one of the listed buckets holds it |
| SpatialHashing.QueryMembership | src/spatial_hash.rs:64-77 | under the invariant, a query finds exactly the recorded entities whose rectangle shares a cell with the query rectangle |
| SpatialHashing.QueryFindsTouching | src/spatial_hash.rs:64-77 | under the invariant, every recorded entity touching the query rectangle is found |
| SpatialHashing.GatherCount | src/spatial_hash.rs:64-77 | results are not deduplicated: a recorded entity occurs once for each listed cell its rectangle covers |
| SpatialHashing.SpatialHash.constructor | src/spatial_hash.rs:14-20 | an empty index with the given cell size, satisfying the invariant |
| SpatialHashing.SpatialHash.CellCoordsRect | src/spatial_hash.rs:28-40 | the nested loops produce the covered cells, row by row, without duplicates, never empty |
| SpatialHashing.SpatialHash.Insert | src/spatial_hash.rs:42-48 | the new cells and buckets as stated for InsertCellsAt, and the rectangle recorded for the entity; the invariant is kept for an entity not yet recorded |
| SpatialHashing.SpatialHash.Update | src/spatial_hash.rs:50-62 | the new cells and buckets as stated for UpdateCellsAt; exactly an insert when the entity was never recorded; the new rectangle recorded; the invariant kept |
| SpatialHashing.SpatialHash.Query | src/spatial_hash.rs:64-77 | the listed cells' buckets in cell order; under the invariant, membership is sharing a cell, and each entity's multiplicity is its number of covered listed cells |
| SpatialHashing.UnitTest | src/spatial_hash.rs:85-131 | the unit test's values: the three cells, one hit at (5, 5, 1, 1) after inserting (0, 0, 10, 10), and none after the update to (10, 10, 10, 10) |
| Hierarchy.ChainWorldDepthUnique | src/systems.rs:16-40 | an entity's ChildOf chain down from a root has one length only |
| Hierarchy.ReachedHasChain | src/systems.rs:16-40 | under the local rules each reached entity's world transform is the composition along its chain |
| Hierarchy.ChainIsReached | src/systems.rs:16-40 | under the local rules every entity with a chain to a root is reached at that depth |
| Hierarchy.PropagatedMatchesChain | src/systems.rs:16-40 | the local rules (roots get from_root; a reached child gets from_local of its parent's new world transform; the eligible children of reached entities are reached) determine the result: the reached entities are exactly those with a chain to a root, and each gets the composition along its chain |
| Propagation.PushChildren | src/systems.rs:21-25 | pushes (world transform, child) for each child, in order, on top of the stack |
| Propagation.SeedRoot | src/systems.rs:19-25 | writing one root with from_root and pushing its children keeps the walk invariant |
| Propagation.SeedRoots | src/systems.rs:18-26 | every parentless entity is written with from_root, and the children of the written entities are waiting on the stack exactly once each |
| Propagation.Visit | src/systems.rs:28-40 | one pop keeps the walk invariant (every written entity composed along its chain, every eligible child of a written entity written or waiting exactly once); each pop writes a new entity or, when the popped entry is not an eligible child, only shrinks the stack |
| Propagation.Propagate | src/systems.rs:12-41 | the loop terminates on any forest consistent with ChildOf/Children, with no acyclicity assumption; roots get from_root; every reached child gets from_local of its parent's final world transform; every eligible child of a reached entity is reached; unreached entities keep their world transform; the result equals the composition along each entity's chain |
| Propagation.WithGlobals | src/systems.rs:407-416 | every entity with a local transform ends with a world transform: from_root of the local one where it had none, its existing one otherwise |
| Propagation.WithGlobalsIdempotent | src/systems.rs:407-416 | adding the missing world transforms a second time changes nothing |
| Propagation.WithGlobalsCompletesQueries | src/systems.rs:407-416 | afterwards, an entity with a local transform matches the roots query exactly when it has no parent, and the children query exactly when it has one |
| Propagation.EnsureGlobalTransforms | src/main.rs:537-546 | each entity with a local transform and no world transform gets from_root; existing world transforms are left untouched (insert_if_new); same system as src/systems.rs:407-416 |
| ChangedPropagation.Seed | src/main.rs:559-567 | every changed entity gets from_root; all other world transforms are kept |
| ChangedPropagation.VisitShrinks | src/main.rs:570-587 | popping an entity and pushing its children uses up exactly one visit of the remaining budget, given the forest has a rank |
| ChangedPropagation.SeedChanged | src/main.rs:559-567 | the first loop computes the seeded world transforms and stack of Seed |
| ChangedPropagation.DrainStack | src/main.rs:570-587 | the `while let` loop terminates on any ranked forest and computes Drain |
| ChangedPropagation.PropagateChanged | src/main.rs:549-588 | the pass equals ChangedPass, the seeding followed by the draining of the stack |
| ChangedPropagation.DrainFrame | src/main.rs:570-587 | draining writes only entities that already have a world transform, and never one without a local transform |
| ChangedPropagation.ChangedPassFrame | src/main.rs:549-588 | the pass creates no world transform; an entity without a local transform keeps its own; with no changed entity nothing changes |
| ChangedPropagation.SeedEntriesKnown | src/main.rs:559-567 | every entry the first loop pushes carries `Some` parent transform, so the `None` branch at src/main.rs:576-580 is never taken |
| ChangedPropagation.DrainStepKnown | src/main.rs:570-587 | one pop from a stack of `Some` entries: a matched entity gets from_local of the carried transform and its children are pushed with it, an unmatched one is skipped, and the stack keeps only `Some` entries |
| ChangedPropagation.KnownRootStep | src/main.rs:559-567 | seeding one more parentless entity keeps the walk invariant of the systems module's pass |
| ChangedPropagation.SeedWalks | src/main.rs:559-567 | seeding distinct parentless entities establishes that walk invariant, each seed written at depth 0, with only `Some` entries on the stack |
| ChangedPropagation.KnownChildStep | src/main.rs:570-587 | popping an entry whose entity is matched writes from_local of its parent's written transform and keeps the walk invariant |
| ChangedPropagation.KnownSkipStep | src/main.rs:570-587 | popping an entry whose entity is not matched keeps the walk invariant |
| ChangedPropagation.WalkEndsOnChains | src/main.rs:570-587 | an empty stack with every parentless entity written leaves exactly the chain compositions |
| ChangedPropagation.DrainFollowsChains | src/main.rs:570-587 | draining from the walk invariant, with every parentless entity written, gives each entity with a chain to a root the composition along it and keeps every other world transform |
| ChangedPropagation.ChangedPassFromRoots | src/main.rs:549-588 | when the changed entities are exactly the parentless ones, the pass gives each entity with a chain to a root the composition along it and keeps every other world transform |
| ChangedPropagation.PassesAgreeOnRoots | src/main.rs:549-588 | when the changed entities are exactly the parentless ones, the main module's pass and the systems module's pass (src/systems.rs:12-41) give the same world transforms |
| ChangedPropagationExamples.SeedLeaf | src/main.rs:559-567 | a changed entity with no children is written with from_root and nothing else happens |
| ChangedPropagationExamples.ChangedChildIgnoresParent | src/main.rs:559-567 | parent p at x = 5 and child c at local x = 1, only c changed: c ends at x = 1, where its parent would put it at x = 6 |
| ChangedPropagationExamples.StaleSeed | src/main.rs:559-567 | seeding child p and then root r leaves p's entry for grandchild c below r's entry for p |
| ChangedPropagationExamples.StaleDrain | src/main.rs:570-587 | the fresh entry for c is popped before the stale one, so c's last write uses p's from_root |
| ChangedPropagationExamples.SeedOrderLeavesStaleChild | src/main.rs:549-588 | with root r, child p and grandchild c, where p and then r changed: c ends composed with p's from_root, so it differs from from_local of p's final world transform whenever r is away from the origin |
| Collision.ClampX | src/systems.rs:149-155 | only on strict overlap with a nonzero X velocity: the body stops flush against the near edge (right edge at the obstacle's left for vx > 0, left edge at its right for vx < 0), having moved back; afterwards they do not overlap; Y and the size are kept |
| Collision.ClampY | src/systems.rs:174-180 | the same rule on the Y axis with the height |
| Collision.PushOut | src/systems.rs:199-225 | on overlap the body moves along X when the X penetration is smaller, otherwise along Y (ties go to Y), towards the side its centre is on (+ when the centre delta is positive); afterwards the centres are half the summed extents apart on that axis and the rectangles no longer overlap; the size is kept |
| Collision.ClampAllX | src/systems.rs:146-168 | clamping against a list of obstacles in order keeps Y and the size, never moves the body forward, is the identity at zero velocity, and leaves the body clear of the last obstacle |
| Collision.ClampAllY | src/systems.rs:171-193 | the same for the Y pass |
| Collision.PushAll | src/systems.rs:196-263 | pushing out against a list keeps the size, leaves the body clear of the last obstacle, and does nothing when no obstacle overlaps |
| Collision.ResolveRect | src/systems.rs:144-264 | resolving one body changes its position only, never its width or height |
| Collision.Step | src/systems.rs:120-264 | a turn changes the mover's own rectangle only, resolving it against its static candidates and all other movers at their current rectangles |
| Collision.Resolved | src/systems.rs:120-270 | after n turns the movers from n on are still at their original rectangles |
| Collision.Still | src/systems.rs:231-236 | the obstacles of the stationary branch among the other movers are exactly the ones with zero velocity |
| Collision.ResolveRectBounds | src/systems.rs:144-193 | a moving body never ends beyond where its velocity takes it on either axis, and stays on its line on an axis with zero velocity |
| Collision.ResolveRectClearsLast | src/systems.rs:170-193 | with a nonzero Y velocity the body ends clear of the last obstacle of the Y pass: the last other mover, or the last static candidate when it is the only mover |
| Collision.StationaryClearStays | src/systems.rs:194-263 | a stationary body that overlaps nothing stays where it is |
| Collision.ResolvedKeepsSizes | src/systems.rs:120-270 | resolution never changes a rectangle's width or height |
| Collision.ResolvedSettles | src/systems.rs:120-122 | once a mover's turn is over, later turns leave its rectangle alone |
| Collision.ResolvedTurn | src/systems.rs:120-193 | in its turn a mover starts from its original rectangle and meets earlier movers at their resolved rectangles and later ones at their original ones |
| Collision.ClampPassX | src/systems.rs:146-158 | the obstacle loop computes ClampAllX |
| Collision.ClampPassY | src/systems.rs:171-183 | the obstacle loop computes ClampAllY |
| Collision.PushPass | src/systems.rs:196-229 | the static loop of the stationary branch computes PushAll |
| Collision.PushPassStill | src/systems.rs:231-263 | the mover loop of the stationary branch pushes against the zero-velocity movers only |
| Collision.ResolveBody | src/systems.rs:144-264 | one mover: X move and clamps (statics, then movers), then Y move and clamps, or the two push loops when the velocity is zero |
| Collision.Resolve | src/systems.rs:120-264 | mover i's turn on the array changes element i only |
| Collision.Bodies | src/systems.rs:99-118 | the collected bodies are the movers with a collider, once each, in query order, with collider rectangle world position - offset and size times world scale |
| Collision.BodiesCover | src/systems.rs:101-116 | every mover with a collider has a body |
| Collision.Candidates | src/systems.rs:125-142 | a rectangle is a static candidate exactly when some entity the spatial hash returned matches the static-collider query and that rectangle is its collider's |
| Collision.QueriedStatics | src/systems.rs:125-142 | each mover's candidates come from the query of its rectangle at the start of its turn |
| Collision.OnScreenStatics | src/main.rs:264-284 | the brute-force candidates are exactly the collider rectangles of the static colliders marked OnScreen; a static collider that is not on screen is never an obstacle |
| Collision.ProgressStep | src/systems.rs:266-269 | a turn moves the mover's transform by the displacement of its rectangle and affects no other mover |
| Collision.CollectBodies | src/systems.rs:99-118 | movers without a collider move by their velocity and take no further part; the others are collected as Bodies |
| Collision.Turn | src/systems.rs:120-270 | one turn: mover i's rectangle is resolved in place, and its transform gains exactly (resolved position - original position) |
| Collision.ApplyVelocity | src/systems.rs:86-275 | the final positions: colliderless movers moved by their velocity, the others by the displacement their rectangle underwent in their turn, each turn against its spatial-hash candidates and the other movers |
| Collision.ResolveAgainst | src/main.rs:286-436 | the same mover loop against one fixed list of static candidates; the final position is the original minus (original rectangle position - resolved rectangle position) |
| Collision.ApplyVelocityBruteForce | src/main.rs:257-440 | the brute-force resolver: the OnScreen static candidates, collected once, for every mover |
| Visibility.Clamp | src/systems.rs:286 | `f32::clamp`: the result is in range, equals the input inside the range and the nearer bound outside it |
| Visibility.Scrolled | src/systems.rs:284-287 | a wheel movement adds a tenth of itself to the zoom: a sum inside the range is taken as it is, one below the lower bound gives the lower bound, one above the upper bound gives the upper bound; without movement the zoom is kept |
| Visibility.MoveCamera | src/systems.rs:277-288 | the camera looks at the target, keeps its offset, and zooms on the wheel clamped to [0.3, 5] |
| Visibility.MoveCameraBruteForce | src/main.rs:442-453 | the same, clamped to [0, 5] |
| Visibility.ZoomStaysInRange | src/systems.rs:284-287 | a zoom in [lower bound, 5] stays in that range whatever the wheel does, so once the systems module's zoom is in range it stays positive |
| Visibility.ViewRect | src/systems.rs:319-333 | the query rectangle is centred on the camera target, and its width and height times the zoom are twice the screen size |
| Visibility.ViewRectPadded | src/main.rs:472-484 | the query rectangle is the screen area seen at zoom 1 (target - offset, screen size) grown by 1000 on every side |
| Visibility.MarkedAreFound | src/systems.rs:328-352 | the marked set is the reported one, which under the index invariant is the recorded entities sharing a cell with the view, including every entity touching it |
| Visibility.UpdateOnScreen | src/systems.rs:311-354 | after the queued inserts and removals, the entities marked on screen are exactly the query result over the view rectangle |
| Visibility.UpdateOnScreenBruteForce | src/main.rs:465-492 | removing every mark and then inserting the reported ones leaves exactly the query result over the padded rectangle marked |
| SpriteSync.Placed | src/systems.rs:446-451 | the rectangle has the given size, and the position sits at the origin fractions of its width and height |
| SpriteSync.SpriteRect | src/systems.rs:443-459 | no rectangle exactly for textures; otherwise the shape's extent (a circle's radius on both axes) scaled by the transform, placed with the sprite's origin |
| SpriteSync.PlacedHoldsAnchor | src/systems.rs:446-451 | with nonnegative size and an origin in the unit square the rectangle is not inverted and contains its position; origin fractions 0, 1/2 and 1 put the position on the near edge, the centre line or the far edge |
| SpriteSync.SpriteRectPlacement | src/systems.rs:443-459 | with nonnegative extent and scale a sprite's rectangle is not inverted, so it is a valid spatial-hash record, and contains the sprite's position |
| SpriteSync.SpriteRectNamedOrigins | src/systems.rs:443-459 | a top-left origin puts the corner at the position, a centre origin the centre, and the default (bottom) origin the middle of the bottom edge |
| SpriteSync.SyncedOffset | src/systems.rs:428-436 | the collider keeps its shape, and its world rectangle then holds the owner's world position at the sprite's origin fractions |
| SpriteSync.OffsetFormsAgree | src/main.rs:599-604 | the main module's form `SpriteSync.SyncedOffsetBruteForce`, size times origin times scale, gives the same offset as the systems module's form `SpriteSync.SyncedOffset` |
| SpriteSync.SyncedColliderMatchesSprite | src/systems.rs:428-459 | a synced collider with the sprite's rectangle shape covers exactly the rectangle the sprite is recorded under in the spatial hash |
| SpriteSync.SyncedOffsetIdempotent | src/systems.rs:428-436 | syncing twice is the same as syncing once |
| SpriteSync.SyncColliders | src/systems.rs:419-437 | every matched collider gets its synced offset; every other collider is unchanged |
| SpriteSync.AfterConsistent | src/systems.rs:439-463 | the pass of updates keeps the index invariant |
| SpriteSync.RecordsAfterHasRows | src/systems.rs:443-461 | when each entity occurs in one row, afterwards each entity with a shape is recorded under its sprite's rectangle |
| SpriteSync.RecordsAfterKeepsOthers | src/systems.rs:443-461 | entities not in the pass, and texture sprites, keep their record or its absence |
| SpriteSync.HashRowUpdate | src/systems.rs:444-461 | one row: update with the sprite's rectangle, or nothing for a texture |
| SpriteSync.UpdateSpatialHash | src/systems.rs:439-463 | the index after the pass is CellsAfter and RecordsAfter, and the invariant is kept; the main module's form at src/main.rs:608-632 differs only in the transform it reads |
| Timestep.NewTime | src/resources.rs:54-60 | the step is positive and is one frame at the given rate, and exactly one step is already accumulated |
| Timestep.WholeSteps | src/main.rs:189-197 | splitting a total into k whole steps and a remainder below one step fixes k as floor(total / step) |
| Timestep.StepOff | src/main.rs:189-196 | taking one step off an accumulator of at least one step lowers its whole-step count by one |
| Timestep.Frame | src/main.rs:187-197 | the loop runs floor((accumulator + frame time) / step) ticks and leaves 0 <= accumulator < step; ticks times step plus the new accumulator is the old accumulator plus the frame time |
| Timestep.RunFrames | src/main.rs:184-197 | from Time::new(60), the ticks times the step plus what is left equals one step plus the sum of the frame times; what is left is at most one step, below it after any frame, and the first frame always ticks |

## Left out

- Rendering, the window, keyboard and mouse polling, text and resize
  systems, and debug toggles: these are I/O and UI. The wheel reading is a
  parameter of `Visibility.Scrolled`, and the screen size is a parameter of
  the view rectangles.
- `move_player_system`: it reads keys and normalises a direction with a
  square root. Velocities are inputs of the resolver.
- Float rounding, NaN and overflow of `f32`, and the `as i32` cast of cell
  indices: all arithmetic is exact, and `Floor` is unbounded.
- `Geometry.CollidesRect`: assumed, because the rendering crate is not part
  of this model.
- Schedules, query filters (`Changed`, `With`, `Without`, `ParamSet`) and
  deferred commands are not modelled as such. Each system gets the rows its
  queries match, in iteration order, as sequences. Commands are applied in
  the order they were queued.
- Metrics and `Instant` timing of the systems.
- Concurrency: rayon in the renderer.
- The `Time` resource of the update schedule: `delta` = frame time,
  accumulator 0. It is read only by systems outside this model.
- Collision.ApplyVelocity: does not claim that a mover ends free of overlap
  with every obstacle. A later clamp can move it back into an earlier
  obstacle. What is proved is clearance from the last obstacle of each pass,
  `Collision.ResolveRectClearsLast`.
- Collision.ApplyVelocity: requires each mover's collider rectangle to be
  non-inverted, because the spatial hash's debug assertion demands this of
  every query rectangle.
- Visibility.UpdateOnScreen: requires a positive zoom and a non-inverted
  view rectangle. `Visibility.ZoomStaysInRange` shows only that a zoom in
  [0.3, 5] stays there. The first wheel movement also brings any zoom into
  that range (`Visibility.Scrolled`). The camera's initial zoom comes from
  the rendering crate's `Camera2D` default (src/main.rs:32-38), which is
  not part of this model; the model takes it to be in range. The second
  condition is the spatial hash's debug assertion.
- Visibility.UpdateOnScreenBruteForce: requires a non-inverted padded view
  rectangle for the same reason. This version's zoom may reach 0 (src/main.rs:451).
  Its view rectangle does not divide by the zoom, so nothing breaks.
- ChangedPropagation.PropagateChanged: requires a ghost rank that decreases
  from parent to child, so the Children lists are acyclic. The source loops
  forever on a cycle. The systems module's pass needs no such assumption.
- SpriteSync.SyncColliders: requires each entity to appear at most once
  among the rows, as a query yields it.
- SpriteSync.UpdateSpatialHash: requires every recorded sprite rectangle to be non-inverted, which the spatial hash's debug assertion demands; negative sizes or scales are not modelled.
- SpriteSync.UpdateSpatialHash: the systems module hashes the world
  transform (src/systems.rs:441); the main module hashes the local
  `Transform` (src/main.rs:610). The rows carry the position and scale to
  use, so one definition covers both versions.
- Components.ColliderRect: carries no contract of its own. It is the rectangle formula of src/systems.rs:107-114, and the contracts of `Collision.Bodies` and `SpriteSync.SyncedOffset` speak about it.
- The other component types and their `Default` impls are datatypes and constants, not operations.
- The camera offset update on resize is layout, not simulation.

## Findings

| source | as written | input that shows it | evidently intended | confidence | as-written member | corrected member |
|---|---|---|---|---|---|---|
| src/main.rs:559-567 | every entity whose local transform changed is seeded with from_root, including children | parent p at x = 5, child c at local x = 1, and only c changed: c's world x becomes 1, not 6 | a changed child is composed with its parent's world transform, as in src/systems.rs:18-26, where only parentless entities are seeded | medium, not executed | ChangedPropagationExamples.ChangedChildIgnoresParent | Propagation.Propagate |
| src/main.rs:559-587 | the entry a changed child pushes for its own children while seeded stays on the stack below the fresh one its changed parent pushes later | root r at a nonzero position, child p, grandchild c; p and r changed, and the query yields p first: c ends as from_local(from_root(p), c) instead of from_local(p's final world transform, c) | every descendant ends composed with its parent's final world transform | medium, not executed | ChangedPropagationExamples.SeedOrderLeavesStaleChild | Propagation.Propagate |
