/** The broad-phase index of `physics::Quadtree`. A node holds its bounds,
    its depth, the capacity and depth limits, the sprites kept at that node
    and its child nodes. Sprites are seen only through the capability the
    index uses: an identity and the global bounds of their shape. */
module Quadtree {
  import opened Geometry

  datatype Sprite = Sprite(id: nat, box: Rect)

  datatype Quadtree = Quadtree(
    bounds: Rect,
    level: nat,
    maxObjects: nat,
    maxLevels: nat,
    objects: seq<Sprite>,
    nodes: seq<Quadtree>)

  /** What a node and its whole subtree store, in pre-order: the node's own
      sprites, then each child's subtree in child order. */
  function Elements(t: Quadtree): seq<Sprite>
    decreases t
  {
    t.objects + ElementsAll(t.nodes)
  }

  function ElementsAll(ns: seq<Quadtree>): seq<Sprite>
    decreases ns
  {
    if |ns| == 0 then [] else Elements(ns[0]) + ElementsAll(ns[1..])
  }

  /** The sprites among `objs` whose bounds meet `area`, in stored order. */
  function Matching(objs: seq<Sprite>, area: Rect): (r: seq<Sprite>)
    ensures multiset(r) <= multiset(objs)
    ensures forall s :: s in r ==> s in objs && Intersects(area, s.box)
  {
    if |objs| == 0 then []
    else
      assert objs == [objs[0]] + objs[1..];
      if Intersects(area, objs[0].box) then [objs[0]] + Matching(objs[1..], area)
      else Matching(objs[1..], area)
  }

  /** The constructor: an empty leaf. */
  function New(x: real, y: real, width: real, height: real, level: nat, maxObjects: nat, maxLevels: nat): (t: Quadtree)
    ensures t.bounds == Rect(x, y, width, height)
    ensures t.level == level && t.maxObjects == maxObjects && t.maxLevels == maxLevels
    ensures t.objects == [] && t.nodes == []
  {
    Quadtree(Rect(x, y, width, height), level, maxObjects, maxLevels, [], [])
  }

  /** `clear`: drops the node's sprites and all of its children. */
  function Clear(t: Quadtree): (r: Quadtree)
    ensures Elements(r) == [] && r.nodes == []
    ensures r.bounds == t.bounds && r.level == t.level
    ensures r.maxObjects == t.maxObjects && r.maxLevels == t.maxLevels
  {
    t.(objects := [], nodes := [])
  }

  /** `query`: nothing when the area misses the node; otherwise the node's
      own matches in stored order, then each child's result in child order. */
  function Query(t: Quadtree, area: Rect): (r: seq<Sprite>)
    ensures !Intersects(t.bounds, area) ==> r == []
    ensures forall s :: s in r ==> Intersects(area, s.box)
    ensures multiset(r) <= multiset(Elements(t))
    decreases t
  {
    if !Intersects(t.bounds, area) then []
    else Matching(t.objects, area) + QueryAll(t.nodes, area)
  }

  function QueryAll(ns: seq<Quadtree>, area: Rect): (r: seq<Sprite>)
    ensures forall s :: s in r ==> Intersects(area, s.box)
    ensures multiset(r) <= multiset(ElementsAll(ns))
    decreases ns
  {
    if |ns| == 0 then [] else Query(ns[0], area) + QueryAll(ns[1..], area)
  }

  /** `contains`, as written: both the top-left and the bottom-right corner
      of `box` pass the half-open point test of the node's bounds. */
  function Contains(t: Quadtree, box: Rect): (r: bool)
    ensures r ==> Within(t.bounds, box)
    ensures box.NonNegative() ==>
      (r <==> Within(t.bounds, box) && box.Right() < t.bounds.Right() && box.Bottom() < t.bounds.Bottom())
  {
    ContainsPoint(t.bounds, box.left, box.top) &&
    ContainsPoint(t.bounds, box.Right(), box.Bottom())
  }

  /** Because the right and bottom edges are excluded, no node ever contains
      its own bounds, nor any box that reaches its right or bottom edge. */
  lemma ContainsExcludesFarEdges(t: Quadtree, box: Rect)
    requires box.Right() == t.bounds.Right() || box.Bottom() == t.bounds.Bottom()
    ensures !Contains(t, box)
  {
  }

  /** The corrected membership test: closed containment, under which a node
      does contain a box that fills it. */
  function ContainsClosed(t: Quadtree, box: Rect): (r: bool)
    ensures r <==>
      t.bounds.left <= box.left && box.left + box.width <= t.bounds.left + t.bounds.width &&
      t.bounds.top <= box.top && box.top + box.height <= t.bounds.top + t.bounds.height
    ensures Contains(t, box) ==> r
  {
    Within(t.bounds, box)
  }

  lemma ContainsClosedOwnBounds(t: Quadtree)
    ensures ContainsClosed(t, t.bounds)
    ensures !Contains(t, t.bounds)
  {
  }

  // ---------------------------------------------------------------------
  // Subdivision

  /** The four half-size children made by `subdivide`, in the order
      top-left, top-right, bottom-left, bottom-right. */
  function Quadrants(t: Quadtree): (q: seq<Quadtree>)
    ensures |q| == 4
    ensures forall k :: 0 <= k < 4 ==>
      q[k].level == t.level + 1 && q[k].maxObjects == t.maxObjects &&
      q[k].maxLevels == t.maxLevels && q[k].objects == [] && q[k].nodes == [] &&
      q[k].bounds.width == t.bounds.width / 2.0 &&
      q[k].bounds.height == t.bounds.height / 2.0
    ensures q[0].bounds.left == t.bounds.left && q[0].bounds.top == t.bounds.top
    ensures q[1].bounds.left == t.bounds.left + t.bounds.width / 2.0 && q[1].bounds.top == t.bounds.top
    ensures q[2].bounds.left == t.bounds.left && q[2].bounds.top == t.bounds.top + t.bounds.height / 2.0
    ensures q[3].bounds.left == t.bounds.left + t.bounds.width / 2.0
    ensures q[3].bounds.top == t.bounds.top + t.bounds.height / 2.0
    ensures t.bounds.NonNegative() ==>
      forall k :: 0 <= k < 4 ==> q[k].bounds.NonNegative() && Within(t.bounds, q[k].bounds)
  {
    var halfWidth := t.bounds.width / 2.0;
    var halfHeight := t.bounds.height / 2.0;
    var x := t.bounds.left;
    var y := t.bounds.top;
    [ New(x, y, halfWidth, halfHeight, t.level + 1, t.maxObjects, t.maxLevels),
      New(x + halfWidth, y, halfWidth, halfHeight, t.level + 1, t.maxObjects, t.maxLevels),
      New(x, y + halfHeight, halfWidth, halfHeight, t.level + 1, t.maxObjects, t.maxLevels),
      New(x + halfWidth, y + halfHeight, halfWidth, halfHeight, t.level + 1, t.maxObjects, t.maxLevels) ]
  }

  function BoundsOf(ns: seq<Quadtree>): (b: seq<Rect>)
    ensures |b| == |ns| && forall i :: 0 <= i < |ns| ==> b[i] == ns[i].bounds
  {
    seq(|ns|, i requires 0 <= i < |ns| => ns[i].bounds)
  }

  function ListsOf(ns: seq<Quadtree>): (l: seq<seq<Sprite>>)
    ensures |l| == |ns| && forall i :: 0 <= i < |ns| ==> l[i] == ns[i].objects
  {
    seq(|ns|, i requires 0 <= i < |ns| => ns[i].objects)
  }

  /** The nodes `ns` with their own sprite lists replaced by `ls`. */
  function WithLists(ns: seq<Quadtree>, ls: seq<seq<Sprite>>): (r: seq<Quadtree>)
    requires |ls| == |ns|
    ensures |r| == |ns| && forall i :: 0 <= i < |ns| ==> r[i] == ns[i].(objects := ls[i])
  {
    seq(|ns|, i requires 0 <= i < |ns| => ns[i].(objects := ls[i]))
  }

  /** Index of the first region that `fits` the box, or `|regions|` when
      none does: the inner loop of the redistribution. */
  function FirstFit(regions: seq<Rect>, box: Rect, fits: (Rect, Rect) -> bool): (k: nat)
    ensures k <= |regions|
    ensures k < |regions| ==> fits(regions[k], box)
    ensures forall j :: 0 <= j < k ==> !fits(regions[j], box)
    decreases |regions|
  {
    if |regions| == 0 then 0
    else if fits(regions[0], box) then 0
    else 1 + FirstFit(regions[1..], box, fits)
  }

  /** Declarative reference for the redistribution: the sprites of `objs`,
      in order, whose first fitting region is `k` (`k == |regions|`: none). */
  function Assigned(objs: seq<Sprite>, regions: seq<Rect>, fits: (Rect, Rect) -> bool, k: nat): (r: seq<Sprite>)
    ensures multiset(r) <= multiset(objs)
    ensures forall s :: s in r ==> s in objs && FirstFit(regions, s.box, fits) == k
  {
    if |objs| == 0 then []
    else
      assert objs == [objs[0]] + objs[1..];
      if FirstFit(regions, objs[0].box, fits) == k then [objs[0]] + Assigned(objs[1..], regions, fits, k)
      else Assigned(objs[1..], regions, fits, k)
  }

  datatype Split = Split(kept: seq<Sprite>, lists: seq<seq<Sprite>>)

  /** The redistribution loop of `subdivide`: each sprite, in order, is
      appended to the list of the first child whose bounds it fits and
      erased from the parent, or stays with the parent when it fits none.
      The children's bounds never change during the loop, so the children
      are represented by their bounds and their own sprite lists. */
  function Redistribute(objs: seq<Sprite>, regions: seq<Rect>, lists: seq<seq<Sprite>>, fits: (Rect, Rect) -> bool): (r: Split)
    requires |lists| == |regions|
    ensures |r.lists| == |lists|
    ensures |r.kept| <= |objs|
    ensures forall s :: s in r.kept ==> s in objs && FirstFit(regions, s.box, fits) == |regions|
    decreases |objs|
  {
    if |objs| == 0 then Split([], lists)
    else
      var o := objs[0];
      var k := FirstFit(regions, o.box, fits);
      if k < |regions| then
        Redistribute(objs[1..], regions, lists[k := lists[k] + [o]], fits)
      else
        var rest := Redistribute(objs[1..], regions, lists, fits);
        Split([o] + rest.kept, rest.lists)
  }

  /** The sequential redistribution agrees with the declarative one: the
      parent keeps exactly the sprites that fit no child, in order, and each
      child's list grows by exactly the sprites assigned to it, in order. */
  lemma {:induction false} RedistributeAssigns(objs: seq<Sprite>, regions: seq<Rect>, lists: seq<seq<Sprite>>, fits: (Rect, Rect) -> bool)
    requires |lists| == |regions|
    ensures var r := Redistribute(objs, regions, lists, fits);
      r.kept == Assigned(objs, regions, fits, |regions|) &&
      forall i :: 0 <= i < |lists| ==> r.lists[i] == lists[i] + Assigned(objs, regions, fits, i)
    decreases |objs|
  {
    if |objs| > 0 {
      var o := objs[0];
      var rest := objs[1..];
      var k := FirstFit(regions, o.box, fits);
      var r := Redistribute(objs, regions, lists, fits);
      if k < |regions| {
        var lists' := lists[k := lists[k] + [o]];
        RedistributeAssigns(rest, regions, lists', fits);
        forall i | 0 <= i < |lists|
          ensures r.lists[i] == lists[i] + Assigned(objs, regions, fits, i)
        {
          if i == k {
            assert lists[i] + [o] + Assigned(rest, regions, fits, i)
                == lists[i] + ([o] + Assigned(rest, regions, fits, i));
          }
        }
      } else {
        RedistributeAssigns(rest, regions, lists, fits);
      }
    }
  }

  /** All sprites of a list of lists, in order. */
  function Flatten(ls: seq<seq<Sprite>>): seq<Sprite> {
    if |ls| == 0 then [] else ls[0] + Flatten(ls[1..])
  }

  lemma {:induction false} FlattenAddOne(ls: seq<seq<Sprite>>, k: nat, o: Sprite)
    requires k < |ls|
    ensures multiset(Flatten(ls[k := ls[k] + [o]])) == multiset(Flatten(ls)) + multiset{o}
    decreases |ls|
  {
    var ms := ls[k := ls[k] + [o]];
    if k == 0 {
      assert ms[1..] == ls[1..];
    } else {
      assert ms[1..] == ls[1..][k - 1 := ls[k] + [o]];
      FlattenAddOne(ls[1..], k - 1, o);
    }
  }

  /** The redistribution moves sprites but never copies or drops one: the
      parent's remaining sprites and the children's lists together are, as a
      multiset, what they were before. */
  lemma {:induction false} RedistributeConserves(objs: seq<Sprite>, regions: seq<Rect>, lists: seq<seq<Sprite>>, fits: (Rect, Rect) -> bool)
    requires |lists| == |regions|
    ensures var r := Redistribute(objs, regions, lists, fits);
      multiset(r.kept) + multiset(Flatten(r.lists)) == multiset(objs) + multiset(Flatten(lists))
    decreases |objs|
  {
    if |objs| > 0 {
      var o := objs[0];
      assert objs == [o] + objs[1..];
      var k := FirstFit(regions, o.box, fits);
      if k < |regions| {
        var lists' := lists[k := lists[k] + [o]];
        assert Redistribute(objs, regions, lists, fits) == Redistribute(objs[1..], regions, lists', fits);
        RedistributeConserves(objs[1..], regions, lists', fits);
        FlattenAddOne(lists, k, o);
      } else {
        RedistributeConserves(objs[1..], regions, lists, fits);
        var rest := Redistribute(objs[1..], regions, lists, fits);
        var r := Redistribute(objs, regions, lists, fits);
        assert r == Split([o] + rest.kept, rest.lists);
        calc {
          multiset(r.kept) + multiset(Flatten(r.lists));
          multiset([o] + rest.kept) + multiset(Flatten(rest.lists));
          multiset{o} + (multiset(rest.kept) + multiset(Flatten(rest.lists)));
          multiset{o} + (multiset(objs[1..]) + multiset(Flatten(lists)));
          multiset([o] + objs[1..]) + multiset(Flatten(lists));
        }
        assert multiset(r.kept) + multiset(Flatten(r.lists)) == multiset(objs) + multiset(Flatten(lists));
      }
    }
  }

  /** `subdivide` with the membership test `fits(childBounds, spriteBounds)`:
      unchanged at the depth limit; otherwise four quadrants are appended to
      the children and the node's sprites are redistributed over all of its
      children, earlier children first. */
  function SubdivideWith(t: Quadtree, fits: (Rect, Rect) -> bool): (r: Quadtree)
    ensures t.level >= t.maxLevels ==> r == t
    ensures r.bounds == t.bounds && r.level == t.level
    ensures r.maxObjects == t.maxObjects && r.maxLevels == t.maxLevels
    ensures t.level < t.maxLevels ==> |r.nodes| == |t.nodes| + 4
  {
    if t.level >= t.maxLevels then t
    else
      var ns := t.nodes + Quadrants(t);
      var split := Redistribute(t.objects, BoundsOf(ns), ListsOf(ns), fits);
      t.(objects := split.kept, nodes := WithLists(ns, split.lists))
  }

  /** Below the depth limit, the old children keep their place, bounds and
      subtrees, and the four new children follow them: the quadrants, at
      the next level, with the parent's limits and no children. Only the
      children's own sprite lists change. */
  lemma SubdivideShape(t: Quadtree, fits: (Rect, Rect) -> bool)
    requires t.level < t.maxLevels
    ensures var r := SubdivideWith(t, fits);
      |r.nodes| == |t.nodes| + 4 &&
      (forall i :: 0 <= i < |t.nodes| ==> r.nodes[i] == t.nodes[i].(objects := r.nodes[i].objects)) &&
      (forall k :: 0 <= k < 4 ==> r.nodes[|t.nodes| + k] == Quadrants(t)[k].(objects := r.nodes[|t.nodes| + k].objects))
  {
  }

  /** `subdivide` as written: a sprite moves to the first child whose bounds
      merely intersect its own. */
  function Subdivide(t: Quadtree): (r: Quadtree)
    ensures t.level >= t.maxLevels ==> r == t
    ensures t.level < t.maxLevels ==> |r.nodes| == |t.nodes| + 4
  {
    SubdivideWith(t, Intersects)
  }

  /** The corrected `subdivide`: a sprite moves to the first child that
      fully contains it and otherwise stays with the parent. */
  function SubdivideContained(t: Quadtree): (r: Quadtree)
    ensures t.level >= t.maxLevels ==> r == t
    ensures t.level < t.maxLevels ==> |r.nodes| == |t.nodes| + 4
  {
    SubdivideWith(t, Within)
  }

  /** The sprites kept directly by the nodes of `ns`, in node order. */
  function ObjectsOf(ns: seq<Quadtree>): seq<Sprite> {
    Flatten(ListsOf(ns))
  }

  /** The sprites kept strictly below the nodes of `ns`. */
  function DeepOf(ns: seq<Quadtree>): seq<Sprite> {
    if |ns| == 0 then [] else ElementsAll(ns[0].nodes) + DeepOf(ns[1..])
  }

  lemma {:induction false} ElementsAllSplits(ns: seq<Quadtree>)
    ensures multiset(ElementsAll(ns)) == multiset(ObjectsOf(ns)) + multiset(DeepOf(ns))
    decreases |ns|
  {
    if |ns| > 0 {
      assert ListsOf(ns)[1..] == ListsOf(ns[1..]);
      ElementsAllSplits(ns[1..]);
    }
  }

  lemma {:induction false} DeepOfSameChildren(ns: seq<Quadtree>, ms: seq<Quadtree>)
    requires |ns| == |ms|
    requires forall i :: 0 <= i < |ns| ==> ns[i].nodes == ms[i].nodes
    ensures DeepOf(ns) == DeepOf(ms)
    decreases |ns|
  {
    if |ns| > 0 {
      DeepOfSameChildren(ns[1..], ms[1..]);
    }
  }

  lemma {:induction false} FlattenAppend(ls: seq<seq<Sprite>>, ms: seq<seq<Sprite>>)
    ensures Flatten(ls + ms) == Flatten(ls) + Flatten(ms)
    decreases |ls|
  {
    if |ls| > 0 {
      assert (ls + ms)[0] == ls[0];
      assert (ls + ms)[1..] == ls[1..] + ms;
      FlattenAppend(ls[1..], ms);
    } else {
      assert ls + ms == ms;
    }
  }

  lemma {:induction false} DeepOfAppend(ns: seq<Quadtree>, ms: seq<Quadtree>)
    ensures DeepOf(ns + ms) == DeepOf(ns) + DeepOf(ms)
    decreases |ns|
  {
    if |ns| > 0 {
      assert (ns + ms)[0] == ns[0];
      assert (ns + ms)[1..] == ns[1..] + ms;
      DeepOfAppend(ns[1..], ms);
    } else {
      assert ns + ms == ms;
    }
  }

  lemma {:induction false} EmptyNodesHoldNothing(ns: seq<Quadtree>)
    requires forall i :: 0 <= i < |ns| ==> ns[i].objects == [] && ns[i].nodes == []
    ensures ObjectsOf(ns) == [] && DeepOf(ns) == []
    decreases |ns|
  {
    if |ns| > 0 {
      assert ListsOf(ns)[1..] == ListsOf(ns[1..]);
      EmptyNodesHoldNothing(ns[1..]);
    }
  }

  lemma ObjectsOfAppend(ns: seq<Quadtree>, ms: seq<Quadtree>)
    ensures ObjectsOf(ns + ms) == ObjectsOf(ns) + ObjectsOf(ms)
  {
    assert ListsOf(ns + ms) == ListsOf(ns) + ListsOf(ms);
    FlattenAppend(ListsOf(ns), ListsOf(ms));
  }

  lemma WithListsSplits(ns: seq<Quadtree>, ls: seq<seq<Sprite>>)
    requires |ls| == |ns|
    ensures ObjectsOf(WithLists(ns, ls)) == Flatten(ls)
    ensures DeepOf(WithLists(ns, ls)) == DeepOf(ns)
  {
    var ns' := WithLists(ns, ls);
    assert ListsOf(ns') == ls;
    DeepOfSameChildren(ns', ns);
  }

  lemma ElementsAllWithLists(ns: seq<Quadtree>, ls: seq<seq<Sprite>>)
    requires |ls| == |ns|
    ensures multiset(ElementsAll(WithLists(ns, ls))) == multiset(Flatten(ls)) + multiset(DeepOf(ns))
  {
    ElementsAllSplits(WithLists(ns, ls));
    WithListsSplits(ns, ls);
  }

  /** Appending the empty quadrants adds no sprite, directly or below. */
  lemma QuadrantsAddNothing(t: Quadtree)
    ensures ObjectsOf(t.nodes + Quadrants(t)) == ObjectsOf(t.nodes)
    ensures DeepOf(t.nodes + Quadrants(t)) == DeepOf(t.nodes)
  {
    var q := Quadrants(t);
    ObjectsOfAppend(t.nodes, q);
    DeepOfAppend(t.nodes, q);
    EmptyNodesHoldNothing(q);
  }

  /** Any split of the parent's sprites over the extended children that
      conserves them conserves the whole tree. */
  lemma SplitConserves(t: Quadtree, ns: seq<Quadtree>, kept: seq<Sprite>, ls: seq<seq<Sprite>>)
    requires ns == t.nodes + Quadrants(t) && |ls| == |ns|
    requires multiset(kept) + multiset(Flatten(ls)) == multiset(t.objects) + multiset(ObjectsOf(ns))
    ensures multiset(Elements(t.(objects := kept, nodes := WithLists(ns, ls)))) == multiset(Elements(t))
  {
    var u := t.(objects := kept, nodes := WithLists(ns, ls));
    assert multiset(Elements(u)) == multiset(kept) + multiset(ElementsAll(WithLists(ns, ls))) by {
      assert Elements(u) == kept + ElementsAll(WithLists(ns, ls));
    }
    assert multiset(ElementsAll(WithLists(ns, ls))) == multiset(Flatten(ls)) + multiset(DeepOf(t.nodes)) by {
      ElementsAllWithLists(ns, ls);
      QuadrantsAddNothing(t);
    }
    assert multiset(Elements(t)) == multiset(t.objects) + multiset(ObjectsOf(ns)) + multiset(DeepOf(t.nodes)) by {
      ElementsAllSplits(t.nodes);
      QuadrantsAddNothing(t);
    }
  }

  /** Subdivision conserves the whole tree's sprites, as a multiset, for any
      membership test: nothing is copied and nothing is dropped. */
  lemma SubdivideConserves(t: Quadtree, fits: (Rect, Rect) -> bool)
    ensures multiset(Elements(SubdivideWith(t, fits))) == multiset(Elements(t))
  {
    if t.level < t.maxLevels {
      var ns := t.nodes + Quadrants(t);
      var split := Redistribute(t.objects, BoundsOf(ns), ListsOf(ns), fits);
      RedistributeConserves(t.objects, BoundsOf(ns), ListsOf(ns), fits);
      SplitConserves(t, ns, split.kept, split.lists);
    }
  }

  /** On a leaf below the depth limit, each sprite moves into the first of
      the four quadrants it fits, in the order top-left, top-right,
      bottom-left, bottom-right, and stays with the parent exactly when it
      fits none of them. */
  lemma SubdividePlacement(t: Quadtree, fits: (Rect, Rect) -> bool)
    requires t.nodes == [] && t.level < t.maxLevels
    ensures var r := SubdivideWith(t, fits);
      var regions := BoundsOf(Quadrants(t));
      |r.nodes| == 4 &&
      r.objects == Assigned(t.objects, regions, fits, 4) &&
      (forall k :: 0 <= k < 4 ==> r.nodes[k].objects == Assigned(t.objects, regions, fits, k)) &&
      (forall s :: s in r.objects ==> forall k :: 0 <= k < 4 ==> !fits(regions[k], s.box))
  {
    var q := Quadrants(t);
    assert t.nodes + q == q;
    var split := Redistribute(t.objects, BoundsOf(q), ListsOf(q), fits);
    var r := SubdivideWith(t, fits);
    assert r.objects == split.kept && r.nodes == WithLists(q, split.lists);
    RedistributeAssigns(t.objects, BoundsOf(q), ListsOf(q), fits);
    forall k | 0 <= k < 4
      ensures r.nodes[k].objects == Assigned(t.objects, BoundsOf(q), fits, k)
    {
      assert ListsOf(q)[k] == [];
    }
  }

  // ---------------------------------------------------------------------
  // Query completeness

  /** The placement invariant the index relies on: every node has
      non-negative size, keeps only sprites lying inside its bounds, and
      its children lie inside it. */
  predicate Placed(t: Quadtree)
    decreases t
  {
    t.bounds.NonNegative() &&
    (forall s :: s in t.objects ==> Within(t.bounds, s.box)) &&
    (forall i :: 0 <= i < |t.nodes| ==> Within(t.bounds, t.nodes[i].bounds)) &&
    PlacedAll(t.nodes)
  }

  predicate PlacedAll(ns: seq<Quadtree>)
    decreases ns
  {
    |ns| == 0 || (Placed(ns[0]) && PlacedAll(ns[1..]))
  }

  lemma {:induction false} PlacedAllIndex(ns: seq<Quadtree>, i: nat)
    requires PlacedAll(ns) && i < |ns|
    ensures Placed(ns[i])
    decreases |ns|
  {
    if i > 0 {
      PlacedAllIndex(ns[1..], i - 1);
    }
  }

  lemma {:induction false} PlacedAllFromIndex(ns: seq<Quadtree>)
    requires forall i :: 0 <= i < |ns| ==> Placed(ns[i])
    ensures PlacedAll(ns)
    decreases |ns|
  {
    if |ns| > 0 {
      PlacedAllFromIndex(ns[1..]);
    }
  }

  lemma {:induction false} ElementsWithin(t: Quadtree)
    requires Placed(t)
    ensures forall s :: s in Elements(t) ==> Within(t.bounds, s.box)
    decreases t
  {
    ElementsAllWithin(t.nodes, t.bounds);
  }

  lemma {:induction false} ElementsAllWithin(ns: seq<Quadtree>, outer: Rect)
    requires PlacedAll(ns)
    requires forall i :: 0 <= i < |ns| ==> Within(outer, ns[i].bounds)
    ensures forall s :: s in ElementsAll(ns) ==> Within(outer, s.box)
    decreases ns
  {
    if |ns| > 0 {
      ElementsWithin(ns[0]);
      ElementsAllWithin(ns[1..], outer);
      forall s | s in Elements(ns[0])
        ensures Within(outer, s.box)
      {
        WithinTransitive(outer, ns[0].bounds, s.box);
      }
    }
  }

  lemma {:induction false} MatchingAppend(a: seq<Sprite>, b: seq<Sprite>, area: Rect)
    ensures Matching(a + b, area) == Matching(a, area) + Matching(b, area)
    decreases |a|
  {
    if |a| > 0 {
      assert (a + b)[0] == a[0];
      assert (a + b)[1..] == a[1..] + b;
      MatchingAppend(a[1..], b, area);
    } else {
      assert a + b == b;
    }
  }

  lemma {:induction false} MatchingNone(objs: seq<Sprite>, area: Rect)
    requires forall s :: s in objs ==> !Intersects(area, s.box)
    ensures Matching(objs, area) == []
    decreases |objs|
  {
    if |objs| > 0 {
      MatchingNone(objs[1..], area);
    }
  }

  /** Query completeness: on a tree that keeps the placement invariant, a
      query returns exactly the stored sprites that meet the area, each once,
      in pre-order. Nothing stored is lost and nothing is duplicated. */
  lemma {:induction false} QueryComplete(t: Quadtree, area: Rect)
    requires Placed(t)
    ensures Query(t, area) == Matching(Elements(t), area)
    decreases t
  {
    MatchingAppend(t.objects, ElementsAll(t.nodes), area);
    if Intersects(t.bounds, area) {
      QueryAllComplete(t.nodes, area);
    } else {
      ElementsWithin(t);
      forall s | s in Elements(t)
        ensures !Intersects(area, s.box)
      {
        if Intersects(area, s.box) {
          IntersectsSymmetric(area, s.box);
          WithinIntersects(t.bounds, s.box, area);
        }
      }
      MatchingNone(Elements(t), area);
    }
  }

  lemma {:induction false} QueryAllComplete(ns: seq<Quadtree>, area: Rect)
    requires PlacedAll(ns)
    ensures QueryAll(ns, area) == Matching(ElementsAll(ns), area)
    decreases ns
  {
    if |ns| > 0 {
      QueryComplete(ns[0], area);
      QueryAllComplete(ns[1..], area);
      MatchingAppend(Elements(ns[0]), ElementsAll(ns[1..]), area);
    }
  }

  /** After `clear` every query comes back empty. */
  lemma QueryAfterClear(t: Quadtree, area: Rect)
    ensures Query(Clear(t), area) == []
  {
  }

  /** How many times `s` occurs in a query answer over stored sprites: as
      often as it is stored when it meets the area, otherwise never. */
  lemma {:induction false} MatchingCount(objs: seq<Sprite>, area: Rect, s: Sprite)
    ensures multiset(Matching(objs, area))[s] ==
      if Intersects(area, s.box) then multiset(objs)[s] else 0
    decreases |objs|
  {
    if |objs| > 0 {
      assert objs == [objs[0]] + objs[1..];
      MatchingCount(objs[1..], area, s);
    }
  }

  // ---------------------------------------------------------------------
  // The corrected subdivision keeps the invariant and the query answers

  /** The corrected subdivision keeps the placement invariant. */
  lemma SubdivideContainedPlaced(t: Quadtree)
    requires Placed(t)
    ensures Placed(SubdivideContained(t))
  {
    if t.level < t.maxLevels {
      var q := Quadrants(t);
      var ns := t.nodes + q;
      var regions := BoundsOf(ns);
      var split := Redistribute(t.objects, regions, ListsOf(ns), Within);
      RedistributeAssigns(t.objects, regions, ListsOf(ns), Within);
      var r := SubdivideContained(t);
      assert r.nodes == WithLists(ns, split.lists);
      forall i | 0 <= i < |ns|
        ensures Placed(r.nodes[i]) && Within(t.bounds, r.nodes[i].bounds)
      {
        var n := ns[i];
        if i < |t.nodes| {
          PlacedAllIndex(t.nodes, i);
        } else {
          assert n == q[i - |t.nodes|];
        }
        var extra := Assigned(t.objects, regions, Within, i);
        assert r.nodes[i] == n.(objects := n.objects + extra);
        forall s | s in r.nodes[i].objects
          ensures Within(n.bounds, s.box)
        {
          if s !in n.objects {
            assert s in extra;
          }
        }
      }
      PlacedAllFromIndex(r.nodes);
      forall s | s in r.objects
        ensures Within(t.bounds, s.box)
      {
        assert s in Assigned(t.objects, regions, Within, |ns|);
      }
    }
  }

  /** The corrected subdivision changes no query's answer beyond its order:
      every sprite comes back as often as before, for every area. */
  lemma SubdivideContainedQuery(t: Quadtree, area: Rect)
    requires Placed(t)
    ensures multiset(Query(SubdivideContained(t), area)) == multiset(Query(t, area))
  {
    var r := SubdivideContained(t);
    SubdivideContainedPlaced(t);
    QueryComplete(t, area);
    QueryComplete(r, area);
    SubdivideConserves(t, Within);
    forall s
      ensures multiset(Query(r, area))[s] == multiset(Query(t, area))[s]
    {
      MatchingCount(Elements(r), area, s);
      MatchingCount(Elements(t), area, s);
    }
  }

  lemma {:induction false} QueryAllNothing(ns: seq<Quadtree>, area: Rect)
    requires forall i :: 0 <= i < |ns| ==> Query(ns[i], area) == []
    ensures QueryAll(ns, area) == []
    decreases |ns|
  {
    if |ns| > 0 {
      QueryAllNothing(ns[1..], area);
    }
  }

  lemma AssignedSingle(s: Sprite, regions: seq<Rect>, fits: (Rect, Rect) -> bool, k: nat)
    ensures Assigned([s], regions, fits, k) == if FirstFit(regions, s.box, fits) == k then [s] else []
  {
    assert [s][1..] == [];
  }

  lemma QueryBareLeaf(n: Quadtree, area: Rect)
    requires n.objects == [] && n.nodes == []
    ensures Query(n, area) == []
  {
  }

  /** The bounds of the four quadrants, in order. */
  lemma QuadrantBounds(t: Quadtree)
    ensures var b := t.bounds;
      var hw := b.width / 2.0;
      var hh := b.height / 2.0;
      BoundsOf(Quadrants(t)) ==
        [Rect(b.left, b.top, hw, hh), Rect(b.left + hw, b.top, hw, hh),
         Rect(b.left, b.top + hh, hw, hh), Rect(b.left + hw, b.top + hh, hw, hh)]
  {
  }

  /** Where the sprite straddling the centre of (0,0,10,10) goes. */
  lemma StraddlerFits(t: Quadtree, s: Sprite)
    requires t.bounds == Rect(0.0, 0.0, 10.0, 10.0) && s.box == Rect(4.0, 4.0, 2.0, 2.0)
    ensures FirstFit(BoundsOf(Quadrants(t)), s.box, Intersects) == 0
    ensures FirstFit(BoundsOf(Quadrants(t)), s.box, Within) == 4
  {
    QuadrantBounds(t);
    StraddlerRegions(BoundsOf(Quadrants(t)), s.box);
  }

  lemma StraddlerRegions(regions: seq<Rect>, box: Rect)
    requires regions == [Rect(0.0, 0.0, 5.0, 5.0), Rect(5.0, 0.0, 5.0, 5.0),
                         Rect(0.0, 5.0, 5.0, 5.0), Rect(5.0, 5.0, 5.0, 5.0)]
    requires box == Rect(4.0, 4.0, 2.0, 2.0)
    ensures FirstFit(regions, box, Intersects) == 0
    ensures FirstFit(regions, box, Within) == 4
  {
    StraddlerGeometry();
    assert forall j :: 0 <= j < 4 ==> !Within(regions[j], box);
  }

  /** The plain geometry of the straddling example. */
  lemma StraddlerGeometry()
    ensures !Intersects(Rect(0.0, 0.0, 5.0, 5.0), Rect(5.5, 5.5, 1.0, 1.0))
    ensures Intersects(Rect(0.0, 0.0, 10.0, 10.0), Rect(5.5, 5.5, 1.0, 1.0))
    ensures Intersects(Rect(5.5, 5.5, 1.0, 1.0), Rect(4.0, 4.0, 2.0, 2.0))
    ensures Within(Rect(0.0, 0.0, 10.0, 10.0), Rect(4.0, 4.0, 2.0, 2.0))
    ensures Rect(0.0, 0.0, 10.0, 10.0).NonNegative()
    ensures Intersects(Rect(0.0, 0.0, 5.0, 5.0), Rect(4.0, 4.0, 2.0, 2.0))
    ensures !Within(Rect(0.0, 0.0, 5.0, 5.0), Rect(4.0, 4.0, 2.0, 2.0))
    ensures !Within(Rect(5.0, 0.0, 5.0, 5.0), Rect(4.0, 4.0, 2.0, 2.0))
    ensures !Within(Rect(0.0, 5.0, 5.0, 5.0), Rect(4.0, 4.0, 2.0, 2.0))
    ensures !Within(Rect(5.0, 5.0, 5.0, 5.0), Rect(4.0, 4.0, 2.0, 2.0))
  {
  }

  lemma StraddlerQuadrantQuery(t: Quadtree, s: Sprite, area: Rect, k: nat)
    requires t.bounds == Rect(0.0, 0.0, 10.0, 10.0) && t.objects == [s] && t.nodes == []
    requires t.level < t.maxLevels
    requires s.box == Rect(4.0, 4.0, 2.0, 2.0) && area == Rect(5.5, 5.5, 1.0, 1.0)
    requires k < 4
    ensures Query(Subdivide(t).nodes[k], area) == []
  {
    var regions := BoundsOf(Quadrants(t));
    StraddlerFits(t, s);
    SubdividePlacement(t, Intersects);
    SubdivideShape(t, Intersects);
    var n := Subdivide(t).nodes[k];
    AssignedSingle(s, regions, Intersects, k);
    if k == 0 {
      assert n.bounds == Rect(0.0, 0.0, 5.0, 5.0);
      StraddlerGeometry();
    } else {
      assert n.objects == [] && n.nodes == [];
      QueryBareLeaf(n, area);
    }
  }

  lemma StraddlerFoundBefore(t: Quadtree, s: Sprite, area: Rect)
    requires t.bounds == Rect(0.0, 0.0, 10.0, 10.0) && t.objects == [s] && t.nodes == []
    requires s.box == Rect(4.0, 4.0, 2.0, 2.0) && area == Rect(5.5, 5.5, 1.0, 1.0)
    ensures Placed(t) && Query(t, area) == [s]
  {
    StraddlerGeometry();
    assert [s][1..] == [];
    assert Matching([s], area) == [s];
  }

  /** Subdividing as written can hide a sprite from a query that found it
      before: the sprite straddles the centre, moves into the top-left
      quadrant because it intersects it, and a query over its bottom-right
      part no longer descends into that quadrant. */
  lemma SubdivideLosesStraddler(t: Quadtree, s: Sprite, area: Rect)
    requires t.bounds == Rect(0.0, 0.0, 10.0, 10.0) && t.objects == [s] && t.nodes == []
    requires t.level < t.maxLevels
    requires s.box == Rect(4.0, 4.0, 2.0, 2.0) && area == Rect(5.5, 5.5, 1.0, 1.0)
    ensures Placed(t) && Query(t, area) == [s]
    ensures Query(Subdivide(t), area) == []
  {
    var regions := BoundsOf(Quadrants(t));
    StraddlerGeometry();
    StraddlerFits(t, s);
    SubdividePlacement(t, Intersects);
    var r := Subdivide(t);
    AssignedSingle(s, regions, Intersects, 4);
    assert r.objects == [];
    forall k | 0 <= k < 4
      ensures Query(r.nodes[k], area) == []
    {
      StraddlerQuadrantQuery(t, s, area, k);
    }
    QueryAllNothing(r.nodes, area);
    assert Query(r, area) == Matching(r.objects, area) + QueryAll(r.nodes, area);
    StraddlerFoundBefore(t, s, area);
  }

  /** The same input under the corrected subdivision: the straddling sprite
      stays with the parent and the query still finds it. */
  lemma SubdivideContainedKeepsStraddler(t: Quadtree, s: Sprite, area: Rect)
    requires t.bounds == Rect(0.0, 0.0, 10.0, 10.0) && t.objects == [s] && t.nodes == []
    requires t.level < t.maxLevels
    requires s.box == Rect(4.0, 4.0, 2.0, 2.0) && area == Rect(5.5, 5.5, 1.0, 1.0)
    ensures SubdivideContained(t).objects == [s]
    ensures multiset(Query(SubdivideContained(t), area)) == multiset{s}
  {
    var regions := BoundsOf(Quadrants(t));
    StraddlerGeometry();
    StraddlerFits(t, s);
    SubdividePlacement(t, Within);
    AssignedSingle(s, regions, Within, 4);
    SubdivideContainedQuery(t, area);
    StraddlerFoundBefore(t, s, area);
  }
}
