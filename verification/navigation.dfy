/** One frame of the maze auto-navigation (physics::navigateMaze): the
    agent follows a route of tile indices whose next waypoint is at the
    back, snaps to tile centres when it enters a new tile, and rejoins the
    route after the player has turned it off the grid directions. */
module Navigation {

  /** An optional value, used for the tile the agent is snapped to. */
  datatype Option<+T> = None | Some(value: T)

  /** A tile coordinate, as the integer truncation of a map position. */
  datatype Tile = Tile(x: int, y: int)

  /** Row-major tile index of a map that is `w` tiles wide. */
  function IndexOf(t: Tile, w: nat): int {
    t.y * w + t.x
  }

  /** The tile that a route entry names. */
  function TileAt(idx: nat, w: nat): (t: Tile)
    requires w > 0
    ensures 0 <= t.x < w && 0 <= t.y
    ensures IndexOf(t, w) == idx
  {
    Tile(idx % w, idx / w)
  }

  /** Inside the map's columns, a tile and its index determine each other. */
  lemma TileIndexRoundTrip(t: Tile, w: nat)
    requires w > 0 && 0 <= t.x < w && 0 <= t.y
    ensures IndexOf(t, w) >= 0
    ensures TileAt(IndexOf(t, w), w) == t
  {
    var i := IndexOf(t, w);
    assert i == t.y * w + t.x;
    LemmaDivModUnique(i, w, t.y, t.x);
  }

  lemma LemmaDivModUnique(i: int, w: int, q: int, m: int)
    requires w > 0 && 0 <= m < w && i == q * w + m
    ensures i / w == q && i % w == m
  {
    var d := q - i / w;
    assert i == (i / w) * w + i % w;
    assert d * w == i % w - m by {
      assert q * w - (i / w) * w == (q - i / w) * w;
    }
    LemmaMulAwayFromZero(d, w);
  }

  lemma LemmaMulAwayFromZero(d: int, w: int)
    requires w > 0
    ensures d >= 1 ==> d * w >= w
    ensures d <= -1 ==> d * w <= -w
  {
    if d >= 1 {
      assert d * w == (d - 1) * w + w;
      assert (d - 1) * w >= 0;
    } else if d <= -1 {
      assert d * w == (d + 1) * w - w;
      assert (d + 1) * w <= 0;
    }
  }

  // ---------------------------------------------------------------------
  // Headings

  /** A heading (degrees, truncated to an integer) is off the grid when it
      is not a multiple of 90. C++ truncating `%` and Dafny's Euclidean `%`
      agree on whether the remainder is zero. */
  predicate Deviated(heading: int)
    ensures 0 <= heading < 360 ==> (!Deviated(heading) <==> heading in {0, 90, 180, 270})
  {
    heading % 90 != 0
  }

  /** The neighbouring tile in the direction of the mover chosen for a
      heading: 0 right, 90 down, 180 left, 270 up (y grows downwards). The
      mover itself moves `speed * dt` pixels per frame; this names only the
      tile that lies in its direction. */
  function Step(t: Tile, heading: int): (r: Tile)
    ensures heading in {0, 90, 180, 270} ==> Adjacent(t, r)
    ensures heading !in {0, 90, 180, 270} ==> r == t
  {
    if heading == 0 then Tile(t.x + 1, t.y)
    else if heading == 90 then Tile(t.x, t.y + 1)
    else if heading == 180 then Tile(t.x - 1, t.y)
    else if heading == 270 then Tile(t.x, t.y - 1)
    else t
  }

  /** The heading chosen toward `target` from `from`: the x axis is compared
      before the y axis, and the heading `h` is kept for the same tile. */
  function HeadingToward(from: Tile, target: Tile, h: int): (r: int)
    ensures from == target ==> r == h
    ensures from != target ==> r in {0, 90, 180, 270}
    ensures from.x != target.x ==> r in {0, 180}
    ensures from.x == target.x && from.y != target.y ==> r in {90, 270}
  {
    if target.x < from.x then 180
    else if target.x > from.x then 0
    else if target.y < from.y then 270
    else if target.y > from.y then 90
    else h
  }

  predicate Adjacent(a: Tile, b: Tile) {
    (a.y == b.y && (a.x - b.x == 1 || b.x - a.x == 1)) ||
    (a.x == b.x && (a.y - b.y == 1 || b.y - a.y == 1))
  }

  /** Taking one step along the chosen heading reaches a neighbouring
      target. */
  lemma HeadingTowardReaches(from: Tile, target: Tile, h: int)
    requires Adjacent(from, target)
    ensures Step(from, HeadingToward(from, target, h)) == target
  {
  }

  /** For any other target, the step shortens the grid distance by one. */
  lemma HeadingTowardApproaches(from: Tile, target: Tile, h: int)
    requires from != target
    ensures var s := Step(from, HeadingToward(from, target, h));
      Dist(s.x, target.x) + Dist(s.y, target.y) + 1 == Dist(from.x, target.x) + Dist(from.y, target.y)
  {
  }

  // ---------------------------------------------------------------------
  // Searching the route

  function Dist(a: int, b: int): nat {
    if a >= b then a - b else b - a
  }

  /** Position of the first entry equal to `v`, or |route| when absent
      (std::find). */
  function FirstIndex(route: seq<nat>, v: int): (k: nat)
    ensures k <= |route|
    ensures k < |route| ==> route[k] == v
    ensures forall j :: 0 <= j < k ==> route[j] != v
    decreases |route|
  {
    if |route| == 0 then 0
    else if route[0] == v then 0
    else 1 + FirstIndex(route[1..], v)
  }

  /** `k` is the first entry of the route whose distance to `idx` is least:
      the element std::min_element picks with a strict `<` comparison. */
  predicate FirstClosest(route: seq<nat>, idx: int, k: int) {
    0 <= k < |route| &&
    (forall j :: 0 <= j < |route| ==> Dist(route[k], idx) <= Dist(route[j], idx)) &&
    (forall j :: 0 <= j < k ==> Dist(route[k], idx) < Dist(route[j], idx))
  }

  /** There is only one first closest entry. */
  lemma FirstClosestUnique(route: seq<nat>, idx: int, k1: int, k2: int)
    requires FirstClosest(route, idx, k1) && FirstClosest(route, idx, k2)
    ensures k1 == k2
  {
    assert Dist(route[k1], idx) <= Dist(route[k2], idx);
    assert Dist(route[k2], idx) <= Dist(route[k1], idx);
  }

  /** The forward scan of std::min_element: `best` is the first closest
      entry of route[..i], replaced only by a strictly closer one. */
  function ClosestFrom(route: seq<nat>, idx: int, i: nat, best: nat): (k: nat)
    requires best < i <= |route|
    requires forall j :: 0 <= j < i ==> Dist(route[best], idx) <= Dist(route[j], idx)
    requires forall j :: 0 <= j < best ==> Dist(route[best], idx) < Dist(route[j], idx)
    ensures FirstClosest(route, idx, k)
    decreases |route| - i
  {
    if i == |route| then best
    else if Dist(route[i], idx) < Dist(route[best], idx) then ClosestFrom(route, idx, i + 1, i)
    else ClosestFrom(route, idx, i + 1, best)
  }

  function Closest(route: seq<nat>, idx: int): (k: nat)
    requires |route| > 0
    ensures FirstClosest(route, idx, k)
  {
    ClosestFrom(route, idx, 1, 0)
  }

  // ---------------------------------------------------------------------
  // One navigation frame

  /** The route left after the frame, the heading, and the tile whose
      centre the agent was snapped to (None when it was not moved). */
  datatype NavResult = NavResult(route: seq<nat>, heading: int, snap: Option<Tile>)

  /** One frame. `pre` is the agent's tile before the frame's move and
      `post` the tile after it (the mover runs only for headings 0, 90, 180
      and 270, so the two coincide for any other heading); `w` is the map
      width in tiles. */
  function Navigate(pre: Tile, post: Tile, heading: int, route: seq<nat>, w: nat): (r: NavResult)
    requires w > 0
    ensures |r.route| <= |route| && r.route == route[..|r.route|]
    ensures |route| == 0 ==> r == NavResult(route, heading, None)
  {
    if |route| == 0 then NavResult(route, heading, None)
    else
      var deviated := Deviated(heading);
      var idx := IndexOf(pre, w);
      var found := FirstIndex(route, idx);
      var k := if found < |route| then found else Closest(route, idx);
      var target := if deviated && found == |route| then TileAt(route[k], w) else post;
      var kept := if deviated then route[..k + 1] else route;
      var h := if deviated then 0 else heading;
      if pre != target || deviated then
        var next := TileAt(kept[|kept| - 1], w);
        var rest := if deviated then kept else kept[..|kept| - 1];
        NavResult(rest, HeadingToward(target, next, h), Some(target))
      else
        NavResult(route, heading, None)
  }

  /** Rejoining: off the grid directions, the route is cut back to end at
      the first occurrence of the agent's pre-move tile or, when the tile is
      not on the route, at the first entry closest to it; that entry is not
      popped, the agent is snapped to its post-move tile or to that
      entry's tile, and it turns from heading 0 toward the entry. */
  lemma NavigateRejoin(pre: Tile, post: Tile, heading: int, route: seq<nat>, w: nat)
    requires w > 0 && |route| > 0 && Deviated(heading)
    ensures var r := Navigate(pre, post, heading, route, w);
      var idx := IndexOf(pre, w);
      var n := |r.route|;
      n > 0 && r.route == route[..n] &&
      ((exists j :: 0 <= j < |route| && route[j] == idx) ==>
        r.route[n - 1] == idx && (forall j :: 0 <= j < n - 1 ==> route[j] != idx) &&
        r.snap == Some(post) &&
        r.heading == HeadingToward(post, TileAt(r.route[n - 1], w), 0)) &&
      ((forall j :: 0 <= j < |route| ==> route[j] != idx) ==>
        FirstClosest(route, idx, n - 1) &&
        r.snap == Some(TileAt(r.route[n - 1], w)) &&
        r.heading == 0)
  {
    var idx := IndexOf(pre, w);
    var found := FirstIndex(route, idx);
    var k := if found < |route| then found else Closest(route, idx);
    var r := Navigate(pre, post, heading, route, w);
    assert r.route == route[..k + 1];
  }

  /** A grid-direction frame that enters a new tile snaps the agent to it,
      pops exactly the next waypoint and turns toward it. */
  lemma NavigateAdvance(pre: Tile, post: Tile, heading: int, route: seq<nat>, w: nat)
    requires w > 0 && |route| > 0 && !Deviated(heading) && pre != post
    ensures var r := Navigate(pre, post, heading, route, w);
      r.route == route[..|route| - 1] &&
      r.snap == Some(post) &&
      r.heading == HeadingToward(post, TileAt(route[|route| - 1], w), heading)
  {
  }

  /** A grid-direction frame inside the same tile changes nothing. */
  lemma NavigateStay(pre: Tile, heading: int, route: seq<nat>, w: nat)
    requires w > 0 && !Deviated(heading)
    ensures Navigate(pre, pre, heading, route, w) == NavResult(route, heading, None)
  {
  }

  /** Whatever the heading was, a frame on a non-empty route leaves the
      agent facing one of the four grid directions or its previous grid
      heading. */
  lemma NavigateAligns(pre: Tile, post: Tile, heading: int, route: seq<nat>, w: nat)
    requires w > 0 && |route| > 0
    ensures !Deviated(Navigate(pre, post, heading, route, w).heading)
  {
  }

  /** The frame where the agent turned off the grid while standing on the
      route's next waypoint (route 5, 9, 20 on a map 5 wide, agent at tile
      20, heading 45): that waypoint is the last entry, so nothing is cut,
      nothing is popped and the heading becomes 0. */
  lemma NavigateRejoinAtNextWaypoint()
    ensures Navigate(Tile(0, 4), Tile(0, 4), 45, [5, 9, 20], 5) == NavResult([5, 9, 20], 0, Some(Tile(0, 4)))
  {
    var route: seq<nat> := [5, 9, 20];
    assert route[2] == IndexOf(Tile(0, 4), 5);
    assert FirstIndex(route, 20) == 2;
    assert route[..3] == route;
  }
}
