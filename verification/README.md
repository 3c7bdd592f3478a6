# maze_3D physics core in Dafny

This project models the physics namespace of the maze_3D game, together with
the flag records that the game loop reads and resets. It covers:

- **Broad phase** (module `Quadtree`): the quadtree index over sprite
  bounds, with `query`, `contains`, `subdivide` and `clear`, and the
  constructor.
- **Auto-navigation** (module `Navigation`): one frame of `navigateMaze`. The
  agent follows a route of tile indices whose next waypoint is at the back.
  When it enters a new tile it snaps to that tile's centre, pops the
  waypoint and turns toward the next one. After the player turns it off the
  four grid directions, it rejoins the route.
- **Narrow phase** (module `Collision`): `circleCollision`,
  `boundingBoxCollision` and the unrotated `pixelPerfectCollision`.
- **Collision pre-check** (module `Raycast`): `raycastPreCollision`, which
  estimates when two moving bodies come closest. The global result cache is
  passed in and returned as a value.
- **Flag records** (module `Flags`): `FlagEvents`, `SceneEvents` and
  `GameSceneEvents1`, with their constructors and reset operations.
- **Movers** (module `Movement`): the straight-line movers, `freeFall`,
  `moveLeft/Right/Up/Down` and `followDirVec`/`followDirVecOpposite`.

Shared geometry lives in `Geometry`.

Floats are modelled as `real`. The library rectangle `sf::FloatRect` is
modelled by two assumed predicates:

- `Geometry.Intersects` is strict overlap. Rectangles that only share an
  edge do not intersect. `boundingBoxCollision` writes out the same test,
  and `Collision.BoundingBoxIsIntersects` proves the two agree.
- `Geometry.ContainsPoint` is a half-open point test. The left and top edges
  belong to the rectangle; the right and bottom edges do not.

Both are assumptions about the rendering library, which is not part of this
model.

Two behaviours of the code worth knowing:

- **Rejoining at the next waypoint.** Suppose the agent is turned off the
  grid while standing on the route's next waypoint. That waypoint is the
  last entry, so nothing after it is erased, and a rejoin frame never pops.
  The route is left unchanged. `Navigation.NavigateRejoinAtNextWaypoint`
  proves this for the route 5, 9, 20.
- **Subdivide rule.** `subdivide` moves each sprite into the first child
  whose bounds merely intersect it, not into one that contains it (see
  Findings).

## Model

| member | source | states |
|---|---|---|
| Quadtree.New | test/test-src/game/physics/physics.cpp:4-5 | A new node is an empty leaf. It has the given bounds, level, capacity and depth limit, and stores nothing. |
| Quadtree.Clear | test/test-src/game/physics/physics.cpp:7-12 | clear leaves a node with no sprites and no children. Its bounds, level and limits are kept. |
| Quadtree.QueryAfterClear | test/test-src/game/physics/physics.cpp:7-39 | After clear, every query returns nothing. |
| Quadtree.Matching | test/test-src/game/physics/physics.cpp:22-27 | A node's local matches are stored sprites that meet the area, with no copies beyond those stored. |
| Quadtree.MatchingCount | test/test-src/game/physics/physics.cpp:22-27 | A sprite appears among the matches as often as it is stored if it meets the area, and never otherwise. |
| Quadtree.Query | test/test-src/game/physics/physics.cpp:14-39 | A query returns nothing when the area misses the node's bounds. Every returned sprite meets the area. Results are drawn from the sprites stored in the subtree, never more copies than stored. |
| Quadtree.QueryAll | test/test-src/game/physics/physics.cpp:29-32 | The children's results meet the area and are drawn from the children's subtrees. |
| Quadtree.QueryComplete | test/test-src/game/physics/physics.cpp:14-33 | Suppose every node keeps only sprites inside its bounds, and its children inside it. Then a query returns exactly the stored sprites that meet the area, each once: first the node's own matches in stored order, then each child's results in child order. |
| Quadtree.Contains | test/test-src/game/physics/physics.cpp:41-51 | When contains holds, the box lies inside the node's bounds. For a box of non-negative size, contains holds exactly when the box lies inside the bounds and ends strictly before the node's right and bottom edges. |
| Quadtree.ContainsExcludesFarEdges | test/test-src/game/physics/physics.cpp:43 | contains never holds for a box that reaches the node's right or bottom edge. |
| Quadtree.ContainsClosed | test/test-src/game/physics/physics.cpp:43 | The corrected test holds exactly when both corners of the box lie within the bounds, edges included. It holds whenever the as-written test does. |
| Quadtree.ContainsClosedOwnBounds | test/test-src/game/physics/physics.cpp:43 | A node contains its own bounds under the corrected test, but not under the as-written one. |
| Quadtree.Quadrants | test/test-src/game/physics/physics.cpp:61-70 | There are four children: top-left, top-right, bottom-left, bottom-right. Each is half the parent's width and height, at level+1, with the parent's limits, and empty. For a parent of non-negative size, each lies inside it. |
| Quadtree.FirstFit | test/test-src/game/physics/physics.cpp:77-86 | The chosen child is the first whose bounds fit the sprite; no earlier child fits. When no child fits, it is "none". |
| Quadtree.Assigned | test/test-src/game/physics/physics.cpp:75-89 | Reference definition: the stored sprites, in order, whose first fitting child is the given one. |
| Quadtree.Redistribute | test/test-src/game/physics/physics.cpp:75-89 | The redistribution loop keeps one list per child, and the parent keeps no more sprites than it had. Every sprite it keeps was stored there and fits no child. |
| Quadtree.RedistributeAssigns | test/test-src/game/physics/physics.cpp:75-89 | After the redistribution loop, the parent keeps exactly the sprites that fit no child, in order. Each child's list grows by exactly its assigned sprites, in order. |
| Quadtree.RedistributeConserves | test/test-src/game/physics/physics.cpp:75-89 | The loop neither copies nor drops a sprite. The parent's and children's lists together hold the same multiset before and after. |
| Quadtree.SubdivideWith | test/test-src/game/physics/physics.cpp:53-93 | At or beyond the depth limit, subdivide changes nothing. Otherwise it adds exactly four children and keeps the node's bounds, level and limits. |
| Quadtree.SubdivideShape | test/test-src/game/physics/physics.cpp:61-70 | Existing children keep their place, bounds and subtrees. The four new children follow them and are the quadrants. Only the children's own sprite lists change. |
| Quadtree.Subdivide | test/test-src/game/physics/physics.cpp:53-93 | As written, with intersection as the fit test: no change at the depth limit, four more children below it. |
| Quadtree.SubdivideConserves | test/test-src/game/physics/physics.cpp:53-93 | subdivide preserves the multiset of sprites stored in the subtree, for either fit test. |
| Quadtree.SubdividePlacement | test/test-src/game/physics/physics.cpp:75-89 | On a leaf below the depth limit, each sprite goes to the first of the four quadrants it fits, in order. A sprite stays with the parent exactly when it fits none of them. |
| Quadtree.SubdivideLosesStraddler | test/test-src/game/physics/physics.cpp:75-89 | As written, subdividing hides a sprite from a query that found it before (input under Findings). |
| Quadtree.SubdivideContained | test/test-src/game/physics/physics.cpp:53-93 | The corrected subdivide moves a sprite only into a child that fully contains it: no change at the depth limit, four more children below it. |
| Quadtree.SubdivideContainedPlaced | test/test-src/game/physics/physics.cpp:75-89 | The corrected subdivide keeps the placement invariant that QueryComplete needs. |
| Quadtree.SubdivideContainedQuery | test/test-src/game/physics/physics.cpp:14-39 | Under the corrected subdivide, every query returns the same sprites as often as before. |
| Quadtree.SubdivideContainedKeepsStraddler | test/test-src/game/physics/physics.cpp:75-89 | On the input that exposes the as-written bug, the corrected subdivide keeps the sprite at the parent, and the query still finds it. |
| Geometry.IntersectsIff | test/test-src/game/physics/physics.cpp:17 | Rectangles strictly overlap exactly when both have positive size and each starts before the other ends, on both axes. |
| Geometry.IntersectsSymmetric | test/test-src/game/physics/physics.cpp:17-23 | Overlap does not depend on argument order: the node test `bounds.intersects(area)` and the sprite test `area.intersects(box)` use opposite orders. |
| Geometry.WithinIntersects | test/test-src/game/physics/physics.cpp:17-20 | Whatever meets a rectangle that lies inside a node also meets the node. So the early return of query loses nothing that is placed correctly. |
| Navigation.TileAt | test/test-src/game/physics/physics.cpp:285 | The tile named by a route entry is in the map's columns, and its row-major index is the entry. |
| Navigation.TileIndexRoundTrip | test/test-src/game/physics/physics.cpp:215 | A tile within the map's columns and its row-major index determine each other. |
| Navigation.HeadingToward | test/test-src/game/physics/physics.cpp:290-296 | The new heading is 0, 90, 180 or 270 when the target is another tile, and the old heading when it is the same tile. The x axis comes first: a target in another column gives 0 or 180. Only a target in the same column gives 90 or 270. |
| Navigation.Deviated | test/test-src/game/physics/physics.cpp:241 | Within [0, 360), a heading counts as on the grid exactly when it is 0, 90, 180 or 270. |
| Navigation.Step | test/test-src/game/physics/physics.cpp:222-225 | Names the neighbouring tile in the direction of the mover picked for a grid heading: 0 right, 90 down, 180 left, 270 up. Any other heading picks no mover, and names the tile itself. |
| Navigation.HeadingTowardReaches | test/test-src/game/physics/physics.cpp:222-225 | From a neighbouring tile, the chosen heading, with Step's direction per heading, points at the target. |
| Navigation.HeadingTowardApproaches | test/test-src/game/physics/physics.cpp:290-293 | For any other target, one step in the chosen heading shortens the grid distance by one. |
| Navigation.FirstIndex | test/test-src/game/physics/physics.cpp:245 | Finds the first route entry equal to the tile index, or reports that there is none. |
| Navigation.ClosestFrom | test/test-src/game/physics/physics.cpp:249-253 | The forward scan with a strict comparison ends at the first entry that is closest to the tile index. |
| Navigation.Closest | test/test-src/game/physics/physics.cpp:249-253 | Returns the first route entry that is closest to the tile index. |
| Navigation.FirstClosestUnique | test/test-src/game/physics/physics.cpp:249-253 | There is only one first-closest entry. |
| Navigation.Navigate | test/test-src/game/physics/physics.cpp:201-304 | The route after the frame is a prefix of the route before it. With an empty route the frame returns after the mover: the route and the heading are unchanged, and there is no snap. |
| Navigation.NavigateRejoin | test/test-src/game/physics/physics.cpp:241-296 | When the heading is off the grid, the route is cut to end at the first occurrence of the pre-move tile, or at the first closest entry if the tile is absent. That entry is not popped. The agent snaps to the post-move tile or to that entry's tile, and turns toward the entry from heading 0. |
| Navigation.NavigateAdvance | test/test-src/game/physics/physics.cpp:275-296 | On the grid, entering a new tile snaps the agent to it, pops exactly the last entry and turns toward that waypoint. |
| Navigation.NavigateStay | test/test-src/game/physics/physics.cpp:275 | On the grid, a frame within the same tile changes nothing. |
| Navigation.NavigateAligns | test/test-src/game/physics/physics.cpp:241-296 | With a non-empty route, every frame ends with the heading a multiple of 90. |
| Navigation.NavigateRejoinAtNextWaypoint | test/test-src/game/physics/physics.cpp:241-287 | Route 5, 9, 20 on a map 5 tiles wide, agent at tile 20, heading 45: the route stays 5, 9, 20, and the heading becomes 0. |
| Collision.CircleCollision | test/test-src/game/physics/physics.cpp:398-410 | With non-negative radii, colliding circles have centres at most the sum of the radii apart on each axis. |
| Collision.CircleCollisionSymmetric | test/test-src/game/physics/physics.cpp:398-410 | Circle collision does not depend on argument order. |
| Collision.CircleCollisionSameCentre | test/test-src/game/physics/physics.cpp:398-410 | Circles with the same centre always collide. |
| Collision.CircleCollisionOnAxis | test/test-src/game/physics/physics.cpp:398-410 | On one axis, with non-negative radii, circles collide exactly when their centres are at most the sum of the radii apart. |
| Collision.CircleCollisionSeparated | test/test-src/game/physics/physics.cpp:398-410 | With non-negative radii, circles whose centres are further apart on either axis than the sum of the radii do not collide. |
| Collision.BoundingBoxCollision | test/test-src/game/physics/physics.cpp:489-498 | Colliding boxes both have positive width and height. |
| Collision.BoundingBoxIsIntersects | test/test-src/game/physics/physics.cpp:489-498 | The box test is the strict rectangle overlap. Both sizes must be positive, and each box must start before the other ends, on both axes. |
| Collision.BoundingBoxSymmetric | test/test-src/game/physics/physics.cpp:489-498 | The box test does not depend on argument order. |
| Collision.BoundingBoxTouching | test/test-src/game/physics/physics.cpp:497 | Boxes that only share an edge do not collide. |
| Collision.BoundingBoxSelf | test/test-src/game/physics/physics.cpp:489-498 | A box collides with itself exactly when both of its sizes are positive. |
| Collision.PixelIndexInRange | test/test-src/game/physics/physics.cpp:504-528 | Every byte index read from either mask lies in [0, 4*w*h). |
| Collision.PixelPerfectCollision | test/test-src/game/physics/physics.cpp:500-538 | The scan reports a hit exactly when some pixel of the overlap has a 1 in the first byte of both masks. |
| Collision.PixelsCollideSymmetric | test/test-src/game/physics/physics.cpp:500-538 | Swapping the two sprites does not change the pixel test. |
| Collision.PixelsCollideNeedsBoxes | test/test-src/game/physics/physics.cpp:509-515 | Sprites whose boxes fail the box test have no common pixel. |
| Raycast.RaycastPreCollision | test/test-src/game/physics/physics.cpp:413-487 | Every call increments the counter once. Earlier times are kept, and one time is appended exactly when the call returns true. |
| Raycast.RaycastAtRest | test/test-src/game/physics/physics.cpp:431-434 | With no relative velocity and no relative acceleration, the call returns false and records nothing. |
| Raycast.RaycastUniform | test/test-src/game/physics/physics.cpp:439-446 | With relative velocity but no relative acceleration, the call returns true and records -(p.v)/(v.v), which may be negative. That time minimises the distance under uniform motion. |
| Raycast.ClosestApproach | test/test-src/game/physics/physics.cpp:442 | -(p.v)/(v.v) minimises the squared distance \|p + v*s\|^2 over all s. |
| Raycast.DotSelfPositive | test/test-src/game/physics/physics.cpp:454 | A non-zero relative acceleration makes a positive, so the division by 2a is defined. |
| Raycast.RaycastAccelerated | test/test-src/game/physics/physics.cpp:447-486 | With relative acceleration, a negative discriminant gives false. Otherwise the call returns true and records a time exactly when the smaller root time1 is not negative. That time is time1, at most time2, and solves a*t^2 + b*t + c = 0. |
| Raycast.SmallerRoot | test/test-src/game/physics/physics.cpp:468-472 | With a > 0, time1 is never later than time2, so min picks time1. |
| Raycast.RaycastRejectsLaterRoot | test/test-src/game/physics/physics.cpp:471-477 | As written, the call returns false when time1 is negative, even if time2 is not. |
| Raycast.RaycastLaterRootExample | test/test-src/game/physics/physics.cpp:454-477 | With relative position (-4, 0), velocity (1, 0) and acceleration (2, 0), time1 = -2 and time2 = 1. The call as written returns false; the corrected call records 1. |
| Raycast.RaycastPreCollisionCorrected | test/test-src/game/physics/physics.cpp:413-487 | The corrected check keeps the counter and cache rules. It agrees with the code whenever the code returns true, and whenever there is no relative acceleration. |
| Raycast.RaycastCorrectedSmallestNonNegative | test/test-src/game/physics/physics.cpp:471-477 | With relative acceleration, the corrected check returns true exactly when some root of a*t^2 + b*t + c = 0 is not negative. It records the least such root. |
| Raycast.QuadraticRoot | test/test-src/game/physics/physics.cpp:467-469 | (-b +/- sqrt(b^2 - 4ac)) / 2a solves a*t^2 + b*t + c = 0. |
| Flags.NewFlagEvents | test/test-src/game/globals/globals.hpp:233 | The constructor clears the seven key flags and mouseClicked. gameEnd is whatever it was. |
| Flags.ResetFlags | test/test-src/game/globals/globals.hpp:236-239 | resetFlags makes all nine flags false. |
| Flags.ResetFlagsForgets | test/test-src/game/globals/globals.hpp:236-239 | The result of resetFlags does not depend on the previous state, and equals a record constructed with gameEnd false. |
| Flags.ResetFlagsIdempotent | test/test-src/game/globals/globals.hpp:236-239 | Resetting twice is resetting once. |
| Flags.AllFlagKeyReleased | test/test-src/game/globals/globals.hpp:242-250 | allFlagKeyReleased clears the seven key flags. gameEnd and mouseClicked keep their values. |
| Flags.KeysReleasedDetermines | test/test-src/game/globals/globals.hpp:219-250 | A record with all keys released is fixed by gameEnd and mouseClicked. So the contracts of the two resets determine their results completely. |
| Flags.AllFlagKeyReleasedIdempotent | test/test-src/game/globals/globals.hpp:242-250 | Releasing the keys twice is releasing them once. |
| Flags.AllFlagKeyReleasedFixpoint | test/test-src/game/globals/globals.hpp:242-250 | Releasing the keys changes a record exactly when some key was down. |
| Flags.ReleaseAfterReset | test/test-src/game/globals/globals.hpp:236-250 | After resetFlags, allFlagKeyReleased changes nothing. |
| Flags.NewSceneEvents | test/test-src/game/globals/globals.hpp:259 | A new SceneEvents has both flags false. |
| Flags.ResetSceneFlags | test/test-src/game/globals/globals.hpp:261-265 | resetFlags zeroes both scene flags. |
| Flags.ResetSceneRestores | test/test-src/game/globals/globals.hpp:259-265 | A SceneEvents reset restores the freshly constructed record and is idempotent. |
| Flags.NewGameSceneEvents1 | test/test-src/game/globals/globals.hpp:273 | A new GameSceneEvents1 has sceneStart true and the other two flags false. |
| Flags.ResetGameSceneFlags | test/test-src/game/globals/globals.hpp:275-279 | resetFlags zeroes all three flags. |
| Flags.ResetGameSceneDiffers | test/test-src/game/globals/globals.hpp:273-279 | A GameSceneEvents1 reset never yields the constructed record: sceneStart goes from true to false. The reset is idempotent. |
| Movement.FreeFall | test/test-src/game/physics/physics.cpp:126-128 | Falling changes only y, by speed*dt. |
| Movement.MoveLeft | test/test-src/game/physics/physics.cpp:141-144 | Moving left changes only x, down by speed*dt. The acceleration is ignored. |
| Movement.MoveRight | test/test-src/game/physics/physics.cpp:145-148 | Moving right changes only x, up by speed*dt. |
| Movement.MoveUp | test/test-src/game/physics/physics.cpp:149-152 | Moving up changes only y, down by speed*dt. |
| Movement.MoveDown | test/test-src/game/physics/physics.cpp:153-156 | Moving down changes only y, up by speed*dt. |
| Movement.MoveLeftRightInverse | test/test-src/game/physics/physics.cpp:141-148 | Moving left and moving right undo each other. |
| Movement.MoveUpDownInverse | test/test-src/game/physics/physics.cpp:149-156 | Moving up and moving down undo each other. |
| Movement.FreeFallIsMoveDown | test/test-src/game/physics/physics.cpp:126-128 | Falling is moving down. |
| Movement.FollowDirVec | test/test-src/game/physics/physics.cpp:131-134 | Each axis moves only when its own direction component is non-zero. Nothing moves when dt or the speed is zero. |
| Movement.FollowDirVecOpposite | test/test-src/game/physics/physics.cpp:135-138 | The displacement is exactly the negation of the forward mover's. |
| Movement.FollowDirVecOppositeNegates | test/test-src/game/physics/physics.cpp:131-138 | The opposite mover applies exactly the negated displacement, so it undoes the forward mover. |
| Movement.FollowDirVecAlongAxes | test/test-src/game/physics/physics.cpp:131-156 | With unit acceleration, following a unit axis direction is the matching axis mover. |

## Left out

**Operations not modelled**

- `Quadtree::update` (physics.cpp:95-120). It calls the non-virtual `Sprite::getMoveState`, which always returns false, so as written it never reinserts anything. It also relies on `insert`, which is not part of this model.
- `Quadtree::insert`, `spriteMover`, the maze generators and A*. They are not part of this model.
  - `subdivide` is therefore modelled on its own.
  - `navigateMaze` takes the pre-move and post-move tiles as inputs instead of running the mover.
- `calculateRayCast3d`: trigonometry, fixed-step ray marching and vertex arrays.
- The rotated `pixelPerfectCollision`: cos/sin rotation with float-to-int truncation.
- `jump` and `jumpToSurface`: a function-local static start position, `std::round`, and a gravity constant that is not part of this model.
- Logging and console output, and the `try`/`catch` wrappers. Nothing in the modelled code throws.
- Configuration and asset globals.

**Numeric and library behaviour**

- IEEE float behaviour: rounding, NaN and infinities. All float arithmetic is exact `real` arithmetic.
- The rendering library's normalisation of rectangles with negative width or height.
- `std::sqrt` is a parameter that must return the non-negative square root of every non-negative argument.
- `sf::Transformable::setRotation`, called on the player's `sf::Sprite`. Its normalisation of angles into [0, 360) is not modelled, and the player's heading is assumed to equal its shape's rotation.
- Integer overflow of the `size_t` tile index. Tile indices are unbounded integers; for the small maps the game uses they equal the machine values.
- Navigation.Navigate: the heading is an integer, but the code keeps it as a float. Only the off-grid test at physics.cpp:241 truncates it. The mover choice (physics.cpp:222-225) and the kept heading (physics.cpp:296) use the float value, so a fractional heading such as 0.5 is neither a mover heading nor off the grid, and it survives the frame. That case is not modelled.
- Navigation.Navigate: the null check on the player and the tile map (physics.cpp:202-205), which logs and returns before any move, is not modelled; both are assumed present.
- Navigation.Navigate: the mover (physics.cpp:222-225) runs before the empty-route return (physics.cpp:227-229), so the agent moves even on a frame with an empty route. The move is outside the model: the caller supplies the pre-move and post-move tiles.
- Navigation.Step: the per-frame mover moves the sprite `speed * dt` pixels, not a whole tile. Step abstracts that move to the neighbouring tile in its direction, which the agent reaches only after enough frames.
- Navigation.Navigate: tile coordinates are integers computed by the caller, so the truncating float-to-int division by the tile size is not modelled, and neither is the snap position (tile centre) inside the chosen tile.
- Collision.PixelPerfectCollision: positions and sizes are whole pixels, so the float-to-int truncations of the overlap bounds are identities. The masks are assumed to hold four bytes for every pixel.
- Raycast.RaycastPreCollision: the rectangle arguments are not used by the code, and they are not modelled. The `velocityDot == 0` branch under zero acceleration cannot be reached after the first test, so it is omitted.
- Flags.NewFlagEvents: `gameEnd` is left uninitialised by the constructor. It is a parameter here. The global instance is zero-initialised before construction, but that is not modelled.

## Findings

| source | as written | input that shows it | evidently intended | confidence | as-written member | corrected member |
|---|---|---|---|---|---|---|
| test/test-src/game/physics/physics.cpp:78 | `subdivide` moves a sprite into the first child whose bounds *intersect* it. A sprite straddling the centre lands in the top-left quadrant, and a query over its other parts never descends there. | Node (0,0,10,10), sprite (4,4,2,2), query area (5.5,5.5,1,1). The query finds the sprite before `subdivide` and returns nothing after it. | Move a sprite only into a child that fully contains it, and keep straddlers at the parent. Then query answers survive subdivision. | not executed | Quadtree.SubdivideLosesStraddler | Quadtree.SubdivideContainedQuery |
| test/test-src/game/physics/physics.cpp:471-477 | The accelerated case takes `std::min(time1, time2)` and returns false when that is negative. This goes against the intent written beside it: choose the smallest positive time. When time1 < 0 <= time2, a collision ahead at time2 is dropped. | Relative position (-4, 0), velocity (1, 0), acceleration (2, 0), for example body 1 at (-4, 0) moving right at speed 1 with acceleration (2, 0), and body 2 at rest at the origin. Then a = 2, b = 2, c = -4, the discriminant is 36, time1 = -2 and time2 = 1. The call returns false. | Record the smallest root that is not negative, here 1. | not executed | Raycast.RaycastLaterRootExample | Raycast.RaycastCorrectedSmallestNonNegative |
| test/test-src/game/physics/physics.cpp:43 | `contains` uses the half-open point test for the bottom-right corner. No node ever contains its own bounds, nor any box that touches its right or bottom edge. | Node bounds (0,0,10,10), box (0,0,10,10): `contains` is false. | Closed containment, which holds for a box that fills the node. | not executed | Quadtree.ContainsExcludesFarEdges | Quadtree.ContainsClosedOwnBounds |
