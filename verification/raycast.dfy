/** The collision pre-check physics::raycastPreCollision: the time at which
    two moving bodies are estimated to come closest. The global result
    cache of the original is threaded through explicitly. */
module Raycast {
  import opened Geometry

  /** The raycast result cache: how many pre-checks ran, and the times
      they recorded, oldest first. */
  datatype RaycastCache = RaycastCache(counter: nat, times: seq<real>)

  /** What the pre-check needs of one body: position, unit direction,
      speed and acceleration. */
  datatype Body = Body(position: Vec2, direction: Vec2, speed: real, acceleration: Vec2)

  datatype Outcome = Outcome(hit: bool, cache: RaycastCache)

  function Dot(u: Vec2, v: Vec2): real { u.x * v.x + u.y * v.y }
  function Add(u: Vec2, v: Vec2): Vec2 { Vec2(u.x + v.x, u.y + v.y) }
  function Scale(v: Vec2, s: real): Vec2 { Vec2(v.x * s, v.y * s) }

  function RelPosition(b1: Body, b2: Body): Vec2 {
    Vec2(b1.position.x - b2.position.x, b1.position.y - b2.position.y)
  }

  function RelVelocity(b1: Body, b2: Body): Vec2 {
    Vec2(b1.direction.x * b1.speed - b2.direction.x * b2.speed,
         b1.direction.y * b1.speed - b2.direction.y * b2.speed)
  }

  function RelAcceleration(b1: Body, b2: Body): Vec2 {
    Vec2(b1.acceleration.x - b2.acceleration.x, b1.acceleration.y - b2.acceleration.y)
  }

  /** `sqrt` returns the non-negative square root of every non-negative
      argument. */
  ghost predicate IsSqrt(sqrt: real -> real) {
    forall d: real :: d >= 0.0 ==> sqrt(d) >= 0.0 && sqrt(d) * sqrt(d) == d
  }

  /** Coefficients of the quadratic a*t^2 + b*t + c solved when the
      relative acceleration is not zero. */
  function QuadA(b1: Body, b2: Body): real {
    var acc := RelAcceleration(b1, b2);
    0.5 * Dot(acc, acc)
  }
  function QuadB(b1: Body, b2: Body): real {
    Dot(RelVelocity(b1, b2), RelAcceleration(b1, b2))
  }
  function QuadC(b1: Body, b2: Body): real {
    Dot(RelPosition(b1, b2), RelVelocity(b1, b2))
  }

  function Discriminant(b1: Body, b2: Body): real {
    var b := QuadB(b1, b2);
    b * b - 4.0 * QuadA(b1, b2) * QuadC(b1, b2)
  }

  /** A non-zero vector has a positive squared length. */
  lemma DotSelfPositive(v: Vec2)
    requires v != Vec2(0.0, 0.0)
    ensures Dot(v, v) > 0.0
  {
    assert v.x != 0.0 || v.y != 0.0 by {
      assert v == Vec2(v.x, v.y);
    }
    calc {
      Dot(v, v);
      v.x * v.x + v.y * v.y;
    > { SumOfSquaresPositive(v.x, v.y); }
      0.0;
    }
  }

  lemma SumOfSquaresPositive(a: real, b: real)
    requires a != 0.0 || b != 0.0
    ensures a * a + b * b > 0.0
  {
  }

  /** One pre-check. The counter always advances; a time is recorded
      exactly when the check reports a possible collision. */
  function RaycastPreCollision(cache: RaycastCache, b1: Body, b2: Body, sqrt: real -> real): (r: Outcome)
    requires IsSqrt(sqrt)
    ensures r.cache.counter == cache.counter + 1
    ensures |r.cache.times| == |cache.times| + (if r.hit then 1 else 0)
    ensures r.cache.times[..|cache.times|] == cache.times
  {
    var counted := cache.(counter := cache.counter + 1);
    var v := RelVelocity(b1, b2);
    var p := RelPosition(b1, b2);
    var acc := RelAcceleration(b1, b2);
    var vv := Dot(v, v);
    if vv == 0.0 && acc == Vec2(0.0, 0.0) then
      Outcome(false, counted)
    else if acc == Vec2(0.0, 0.0) then
      var t := -Dot(p, v) / vv;
      Outcome(true, counted.(times := counted.times + [t]))
    else
      var disc := Discriminant(b1, b2);
      if disc < 0.0 then
        Outcome(false, counted)
      else
        var t := Min(Time1(b1, b2, sqrt), Time2(b1, b2, sqrt));
        if t < 0.0 then Outcome(false, counted)
        else Outcome(true, counted.(times := counted.times + [t]))
  }

  /** The two roots of the accelerated case, time1 = (-b - sqrt(disc)) / 2a
      and time2 = (-b + sqrt(disc)) / 2a. */
  function Time1(b1: Body, b2: Body, sqrt: real -> real): real
    requires RelAcceleration(b1, b2) != Vec2(0.0, 0.0)
  {
    DotSelfPositive(RelAcceleration(b1, b2));
    (-QuadB(b1, b2) - sqrt(Discriminant(b1, b2))) / (2.0 * QuadA(b1, b2))
  }

  function Time2(b1: Body, b2: Body, sqrt: real -> real): real
    requires RelAcceleration(b1, b2) != Vec2(0.0, 0.0)
  {
    DotSelfPositive(RelAcceleration(b1, b2));
    (-QuadB(b1, b2) + sqrt(Discriminant(b1, b2))) / (2.0 * QuadA(b1, b2))
  }

  /** Without relative velocity and acceleration nothing is recorded. */
  lemma RaycastAtRest(cache: RaycastCache, b1: Body, b2: Body, sqrt: real -> real)
    requires IsSqrt(sqrt)
    requires RelVelocity(b1, b2) == Vec2(0.0, 0.0) && RelAcceleration(b1, b2) == Vec2(0.0, 0.0)
    ensures RaycastPreCollision(cache, b1, b2, sqrt) == Outcome(false, cache.(counter := cache.counter + 1))
  {
  }

  /** Squared distance between the bodies after time `s` of uniform
      relative motion. */
  function Gap2(p: Vec2, v: Vec2, s: real): real {
    var q := Add(p, Scale(v, s));
    Dot(q, q)
  }

  /** With relative velocity but no relative acceleration, the check always
      reports a possible collision and records -(p.v)/(v.v), the time at
      which uniform motion brings the bodies closest; the time may lie in
      the past. */
  lemma RaycastUniform(cache: RaycastCache, b1: Body, b2: Body, sqrt: real -> real)
    requires IsSqrt(sqrt)
    requires RelVelocity(b1, b2) != Vec2(0.0, 0.0) && RelAcceleration(b1, b2) == Vec2(0.0, 0.0)
    ensures var r := RaycastPreCollision(cache, b1, b2, sqrt);
      var p := RelPosition(b1, b2);
      var v := RelVelocity(b1, b2);
      r.hit &&
      var t := r.cache.times[|cache.times|];
      t == -Dot(p, v) / Dot(v, v) &&
      forall s :: Gap2(p, v, t) <= Gap2(p, v, s)
  {
    var p := RelPosition(b1, b2);
    var v := RelVelocity(b1, b2);
    DotSelfPositive(v);
    var t := -Dot(p, v) / Dot(v, v);
    forall s
      ensures Gap2(p, v, t) <= Gap2(p, v, s)
    {
      ClosestApproach(p, v, s);
    }
  }

  lemma GapExpand(p: Vec2, v: Vec2, s: real)
    ensures Gap2(p, v, s) == Dot(p, p) + 2.0 * (s * Dot(p, v)) + (s * s) * Dot(v, v)
  {
    assert (p.x + v.x * s) * (p.x + v.x * s) == p.x * p.x + 2.0 * (s * (p.x * v.x)) + (s * s) * (v.x * v.x);
    assert (p.y + v.y * s) * (p.y + v.y * s) == p.y * p.y + 2.0 * (s * (p.y * v.y)) + (s * s) * (v.y * v.y);
  }

  /** -(p.v)/(v.v) minimises the squared distance under uniform motion. */
  lemma ClosestApproach(p: Vec2, v: Vec2, s: real)
    requires Dot(v, v) > 0.0
    ensures Gap2(p, v, -Dot(p, v) / Dot(v, v)) <= Gap2(p, v, s)
  {
    var t := -Dot(p, v) / Dot(v, v);
    GapExpand(p, v, s);
    GapExpand(p, v, t);
    ParabolaMinimum(Dot(v, v), Dot(p, v), Dot(p, p), s);
  }

  /** The parabola c + 2*b*s + a*s^2 with a > 0 is least at s = -b/a. */
  lemma ParabolaMinimum(a: real, b: real, c: real, s: real)
    requires a > 0.0
    ensures var t := -b / a;
      c + 2.0 * (t * b) + (t * t) * a <= c + 2.0 * (s * b) + (s * s) * a
  {
    var t := -b / a;
    var e := s - t;
    assert t * a == -b;
    assert (s * s) * a == (t * t) * a + 2.0 * (e * (t * a)) + (e * e) * a by {
      assert s == t + e;
      assert s * s == t * t + 2.0 * (e * t) + e * e;
    }
    assert 2.0 * (s * b) == 2.0 * (t * b) + 2.0 * (e * b);
    assert (e * e) * a >= 0.0 by {
      assert e * e >= 0.0;
    }
  }

  /** With relative acceleration, the check reports nothing when the
      quadratic has no real root. Otherwise it records a time exactly when
      the smaller root time1 is not in the past, and that time solves
      a*t^2 + b*t + c = 0. */
  lemma RaycastAccelerated(cache: RaycastCache, b1: Body, b2: Body, sqrt: real -> real)
    requires IsSqrt(sqrt)
    requires RelAcceleration(b1, b2) != Vec2(0.0, 0.0)
    ensures var r := RaycastPreCollision(cache, b1, b2, sqrt);
      var a := QuadA(b1, b2);
      var b := QuadB(b1, b2);
      var c := QuadC(b1, b2);
      a > 0.0 &&
      (Discriminant(b1, b2) < 0.0 ==> !r.hit) &&
      (Discriminant(b1, b2) >= 0.0 ==> (r.hit <==> Time1(b1, b2, sqrt) >= 0.0)) &&
      (r.hit ==>
        var t := r.cache.times[|cache.times|];
        t >= 0.0 &&
        t == Time1(b1, b2, sqrt) && t <= Time2(b1, b2, sqrt) &&
        a * (t * t) + b * t + c == 0.0)
  {
    var acc := RelAcceleration(b1, b2);
    DotSelfPositive(acc);
    var a := QuadA(b1, b2);
    var b := QuadB(b1, b2);
    var c := QuadC(b1, b2);
    var disc := Discriminant(b1, b2);
    if disc >= 0.0 {
      var root := sqrt(disc);
      assert root >= 0.0 && root * root == disc;
      SmallerRoot(a, b, root);
      QuadraticRoot(a, b, c, -root);
    }
  }

  lemma SmallerRoot(a: real, b: real, root: real)
    requires a > 0.0 && root >= 0.0
    ensures (-b - root) / (2.0 * a) <= (-b + root) / (2.0 * a)
  {
  }

  /** (-b + e) / 2a solves a*t^2 + b*t + c = 0 when e^2 = b^2 - 4ac. */
  lemma QuadraticRoot(a: real, b: real, c: real, e: real)
    requires a > 0.0 && e * e == b * b - 4.0 * a * c
    ensures var t := (-b + e) / (2.0 * a);
      a * (t * t) + b * t + c == 0.0
  {
    var t := (-b + e) / (2.0 * a);
    var u := 2.0 * a * t;
    assert u == -b + e;
    assert 4.0 * a * (a * (t * t) + b * t + c) == u * u + 2.0 * b * u + 4.0 * a * c;
    assert u * u + 2.0 * b * u == (u + b) * (u + b) - b * b;
    assert (u + b) * (u + b) == e * e;
  }

  // ---------------------------------------------------------------------
  // The choice of root

  /** The quadratic a*s^2 + b*s + c at `s`. */
  function Quad(a: real, b: real, c: real, s: real): real {
    a * (s * s) + b * s + c
  }

  /** With a > 0, the quadratic has no roots besides the two of the
      formula. */
  lemma OnlyRoots(a: real, b: real, c: real, e: real, s: real)
    requires a > 0.0 && e >= 0.0 && e * e == b * b - 4.0 * a * c
    requires Quad(a, b, c, s) == 0.0
    ensures s == (-b - e) / (2.0 * a) || s == (-b + e) / (2.0 * a)
  {
    var u := 2.0 * a * s + b;
    assert u * u == 4.0 * a * Quad(a, b, c, s) + b * b - 4.0 * a * c;
    SquaresEqual(u, e);
    assert 2.0 * a * s == -b + e || 2.0 * a * s == -b - e;
  }

  /** Equal squares have equal or opposite bases. */
  lemma SquaresEqual(u: real, e: real)
    requires u * u == e * e
    ensures u == e || u == -e
  {
    assert (u - e) * (u + e) == u * u - e * e;
    ZeroProduct(u - e, u + e);
  }

  lemma ZeroProduct(x: real, y: real)
    requires x * y == 0.0
    ensures x == 0.0 || y == 0.0
  {
    if x != 0.0 {
      assert y == (x * y) / x;
    }
  }

  /** As written, the accelerated case gives up whenever time1 is in the
      past, even when time2 is not: the later root is never considered. */
  lemma RaycastRejectsLaterRoot(cache: RaycastCache, b1: Body, b2: Body, sqrt: real -> real)
    requires IsSqrt(sqrt)
    requires RelAcceleration(b1, b2) != Vec2(0.0, 0.0) && Discriminant(b1, b2) >= 0.0
    requires Time1(b1, b2, sqrt) < 0.0 <= Time2(b1, b2, sqrt)
    ensures RaycastPreCollision(cache, b1, b2, sqrt) == Outcome(false, cache.(counter := cache.counter + 1))
  {
    RaycastAccelerated(cache, b1, b2, sqrt);
  }

  /** The square root of a square is the non-negative base. */
  lemma SqrtOfSquare(sqrt: real -> real, x: real)
    requires IsSqrt(sqrt) && x >= 0.0
    ensures sqrt(x * x) == x
  {
    var r := sqrt(x * x);
    assert r >= 0.0 && r * r == x * x;
    SquaresEqual(r, x);
  }

  /** Body 1 four units to the left of body 2, moving right at speed 1
      with acceleration (2, 0); body 2 at rest. */
  predicate LaterRootBodies(b1: Body, b2: Body) {
    b1 == Body(Vec2(-4.0, 0.0), Vec2(1.0, 0.0), 1.0, Vec2(2.0, 0.0)) &&
    b2 == Body(Vec2(0.0, 0.0), Vec2(0.0, 0.0), 0.0, Vec2(0.0, 0.0))
  }

  /** The relative motion of those bodies, which is all the check sees. */
  predicate LaterRootMotion(b1: Body, b2: Body) {
    RelPosition(b1, b2) == Vec2(-4.0, 0.0) && RelVelocity(b1, b2) == Vec2(1.0, 0.0) &&
    RelAcceleration(b1, b2) == Vec2(2.0, 0.0)
  }

  lemma LaterRootBodiesMotion(b1: Body, b2: Body)
    requires LaterRootBodies(b1, b2)
    ensures LaterRootMotion(b1, b2)
  {
  }

  /** For that motion a = 2, b = 2, c = -4 and the discriminant is 36. */
  lemma LaterRootCoefficients(b1: Body, b2: Body)
    requires LaterRootMotion(b1, b2)
    ensures QuadA(b1, b2) == 2.0 && QuadB(b1, b2) == 2.0 && QuadC(b1, b2) == -4.0
    ensures Discriminant(b1, b2) == 36.0
  {
  }

  /** ... so time1 = (-2 - 6) / 4 = -2 and time2 = (-2 + 6) / 4 = 1. */
  lemma LaterRootTimes(b1: Body, b2: Body, sqrt: real -> real)
    requires IsSqrt(sqrt) && RelAcceleration(b1, b2) != Vec2(0.0, 0.0)
    requires QuadA(b1, b2) == 2.0 && QuadB(b1, b2) == 2.0 && Discriminant(b1, b2) == 36.0
    ensures Time1(b1, b2, sqrt) == -2.0 && Time2(b1, b2, sqrt) == 1.0
  {
    SqrtOfSquare(sqrt, 6.0);
  }

  /** On that motion the check as written reports nothing, although the
      later root lies ahead; the corrected check records time 1. */
  lemma RaycastLaterRootExample(cache: RaycastCache, b1: Body, b2: Body, sqrt: real -> real)
    requires IsSqrt(sqrt) && LaterRootMotion(b1, b2)
    ensures Time1(b1, b2, sqrt) == -2.0 && Time2(b1, b2, sqrt) == 1.0
    ensures !RaycastPreCollision(cache, b1, b2, sqrt).hit
    ensures var r := RaycastPreCollisionCorrected(cache, b1, b2, sqrt);
      r.hit && r.cache.times == cache.times + [1.0]
  {
    LaterRootCoefficients(b1, b2);
    LaterRootTimes(b1, b2, sqrt);
    RaycastRejectsLaterRoot(cache, b1, b2, sqrt);
  }

  /** The corrected check: in the accelerated case it records the smallest
      root that is not in the past. It differs from the check as written
      only when time1 is in the past and time2 is not. */
  function RaycastPreCollisionCorrected(cache: RaycastCache, b1: Body, b2: Body, sqrt: real -> real): (r: Outcome)
    requires IsSqrt(sqrt)
    ensures r.cache.counter == cache.counter + 1
    ensures |r.cache.times| == |cache.times| + (if r.hit then 1 else 0)
    ensures r.cache.times[..|cache.times|] == cache.times
    ensures RelAcceleration(b1, b2) == Vec2(0.0, 0.0) ==> r == RaycastPreCollision(cache, b1, b2, sqrt)
    ensures RaycastPreCollision(cache, b1, b2, sqrt).hit ==> r == RaycastPreCollision(cache, b1, b2, sqrt)
  {
    var asWritten := RaycastPreCollision(cache, b1, b2, sqrt);
    if RelAcceleration(b1, b2) != Vec2(0.0, 0.0) && Discriminant(b1, b2) >= 0.0 &&
       Time1(b1, b2, sqrt) < 0.0 <= Time2(b1, b2, sqrt)
    then
      RaycastRejectsLaterRoot(cache, b1, b2, sqrt);
      Outcome(true, asWritten.cache.(times := asWritten.cache.times + [Time2(b1, b2, sqrt)]))
    else asWritten
  }

  /** With relative acceleration, the corrected check reports a collision
      exactly when some root of a*t^2 + b*t + c = 0 is not in the past, and
      records the least such root. */
  lemma RaycastCorrectedSmallestNonNegative(cache: RaycastCache, b1: Body, b2: Body, sqrt: real -> real)
    requires IsSqrt(sqrt)
    requires RelAcceleration(b1, b2) != Vec2(0.0, 0.0)
    ensures var r := RaycastPreCollisionCorrected(cache, b1, b2, sqrt);
      var a := QuadA(b1, b2);
      var b := QuadB(b1, b2);
      var c := QuadC(b1, b2);
      (r.hit <==> exists s :: s >= 0.0 && Quad(a, b, c, s) == 0.0) &&
      (r.hit ==>
        var t := r.cache.times[|cache.times|];
        t >= 0.0 && Quad(a, b, c, t) == 0.0 &&
        forall s :: s >= 0.0 && Quad(a, b, c, s) == 0.0 ==> t <= s)
  {
    var a := QuadA(b1, b2);
    var b := QuadB(b1, b2);
    var c := QuadC(b1, b2);
    RaycastAccelerated(cache, b1, b2, sqrt);
    if Discriminant(b1, b2) >= 0.0 {
      var e := sqrt(Discriminant(b1, b2));
      assert e >= 0.0 && e * e == b * b - 4.0 * a * c;
      RootsOrdered(a, b, c, e);
      assert Time1(b1, b2, sqrt) == (-b - e) / (2.0 * a);
      assert Time2(b1, b2, sqrt) == (-b + e) / (2.0 * a);
    } else {
      forall s
        ensures Quad(a, b, c, s) != 0.0
      {
        NoRealRoot(a, b, c, s);
      }
    }
  }

  /** With a > 0 and e the root of the discriminant, the smaller formula
      root is at most the larger, both are roots, and every root is one of
      them. */
  lemma RootsOrdered(a: real, b: real, c: real, e: real)
    requires a > 0.0 && e >= 0.0 && e * e == b * b - 4.0 * a * c
    ensures var t1 := (-b - e) / (2.0 * a);
      var t2 := (-b + e) / (2.0 * a);
      t1 <= t2 && Quad(a, b, c, t1) == 0.0 && Quad(a, b, c, t2) == 0.0 &&
      forall s :: Quad(a, b, c, s) == 0.0 ==> s == t1 || s == t2
  {
    SmallerRoot(a, b, e);
    QuadraticRoot(a, b, c, -e);
    QuadraticRoot(a, b, c, e);
    forall s | Quad(a, b, c, s) == 0.0
      ensures s == (-b - e) / (2.0 * a) || s == (-b + e) / (2.0 * a)
    {
      OnlyRoots(a, b, c, e, s);
    }
  }

  /** A negative discriminant leaves the quadratic without a real root. */
  lemma NoRealRoot(a: real, b: real, c: real, s: real)
    requires a > 0.0 && b * b - 4.0 * a * c < 0.0
    ensures Quad(a, b, c, s) != 0.0
  {
    var u := 2.0 * a * s + b;
    assert 4.0 * a * Quad(a, b, c, s) == u * u - (b * b - 4.0 * a * c);
    assert u * u >= 0.0;
    assert 4.0 * a * Quad(a, b, c, s) > 0.0;
  }
}
