/** The straight-line movers of the physics namespace. The frame time
    (MetaComponents::deltaTime) is an explicit parameter `dt`. */
module Movement {
  import opened Geometry

  /** freeFall: down the screen (y grows downwards) by speed * dt. */
  function FreeFall(speed: real, pos: Vec2, dt: real): (r: Vec2)
    ensures r.x == pos.x && r.y - pos.y == speed * dt
  {
    Vec2(pos.x, pos.y + speed * dt)
  }

  /** The acceleration argument of the four axis movers is ignored. */
  function MoveLeft(speed: real, pos: Vec2, acceleration: Vec2, dt: real): (r: Vec2)
    ensures r.y == pos.y && pos.x - r.x == speed * dt
  {
    Vec2(pos.x - speed * dt, pos.y)
  }

  function MoveRight(speed: real, pos: Vec2, acceleration: Vec2, dt: real): (r: Vec2)
    ensures r.y == pos.y && r.x - pos.x == speed * dt
  {
    Vec2(pos.x + speed * dt, pos.y)
  }

  function MoveUp(speed: real, pos: Vec2, acceleration: Vec2, dt: real): (r: Vec2)
    ensures r.x == pos.x && pos.y - r.y == speed * dt
  {
    Vec2(pos.x, pos.y - speed * dt)
  }

  function MoveDown(speed: real, pos: Vec2, acceleration: Vec2, dt: real): (r: Vec2)
    ensures r.x == pos.x && r.y - pos.y == speed * dt
  {
    Vec2(pos.x, pos.y + speed * dt)
  }

  /** followDirVec: each axis moves by direction * speed * dt *
      acceleration on that axis. */
  function FollowDirVec(speed: real, pos: Vec2, acceleration: Vec2, direction: Vec2, dt: real): (r: Vec2)
    ensures direction.x == 0.0 ==> r.x == pos.x
    ensures direction.y == 0.0 ==> r.y == pos.y
    ensures dt == 0.0 || speed == 0.0 ==> r == pos
  {
    Vec2(pos.x + direction.x * speed * dt * acceleration.x,
         pos.y + direction.y * speed * dt * acceleration.y)
  }

  /** followDirVecOpposite: the same movement multiplied by -1. */
  function FollowDirVecOpposite(speed: real, pos: Vec2, acceleration: Vec2, direction: Vec2, dt: real): (r: Vec2)
    ensures var f := FollowDirVec(speed, pos, acceleration, direction, dt);
      r.x - pos.x == -(f.x - pos.x) && r.y - pos.y == -(f.y - pos.y)
  {
    Vec2(pos.x + direction.x * speed * dt * acceleration.x * -1.0,
         pos.y + direction.y * speed * dt * acceleration.y * -1.0)
  }

  /** Left and right undo each other, and so do up and down. */
  lemma MoveLeftRightInverse(speed: real, pos: Vec2, acceleration: Vec2, dt: real)
    ensures MoveRight(speed, MoveLeft(speed, pos, acceleration, dt), acceleration, dt) == pos
    ensures MoveLeft(speed, MoveRight(speed, pos, acceleration, dt), acceleration, dt) == pos
  {
  }

  lemma MoveUpDownInverse(speed: real, pos: Vec2, acceleration: Vec2, dt: real)
    ensures MoveDown(speed, MoveUp(speed, pos, acceleration, dt), acceleration, dt) == pos
    ensures MoveUp(speed, MoveDown(speed, pos, acceleration, dt), acceleration, dt) == pos
  {
  }

  /** Falling is moving down. */
  lemma FreeFallIsMoveDown(speed: real, pos: Vec2, acceleration: Vec2, dt: real)
    ensures FreeFall(speed, pos, dt) == MoveDown(speed, pos, acceleration, dt)
  {
  }

  /** The opposite mover applies exactly the negated displacement, so it
      undoes the forward mover. */
  lemma FollowDirVecOppositeNegates(speed: real, pos: Vec2, acceleration: Vec2, direction: Vec2, dt: real)
    ensures var f := FollowDirVec(speed, pos, acceleration, direction, dt);
      var o := FollowDirVecOpposite(speed, pos, acceleration, direction, dt);
      o.x - pos.x == -(f.x - pos.x) && o.y - pos.y == -(f.y - pos.y)
    ensures FollowDirVecOpposite(speed, FollowDirVec(speed, pos, acceleration, direction, dt), acceleration, direction, dt) == pos
  {
  }

  /** Along a unit axis with unit acceleration, following the direction
      vector is the matching axis mover. */
  lemma FollowDirVecAlongAxes(speed: real, pos: Vec2, dt: real)
    ensures FollowDirVec(speed, pos, Vec2(1.0, 1.0), Vec2(1.0, 0.0), dt) == MoveRight(speed, pos, Vec2(1.0, 1.0), dt)
    ensures FollowDirVec(speed, pos, Vec2(1.0, 1.0), Vec2(0.0, 1.0), dt) == MoveDown(speed, pos, Vec2(1.0, 1.0), dt)
    ensures FollowDirVecOpposite(speed, pos, Vec2(1.0, 1.0), Vec2(1.0, 0.0), dt) == MoveLeft(speed, pos, Vec2(1.0, 1.0), dt)
    ensures FollowDirVecOpposite(speed, pos, Vec2(1.0, 1.0), Vec2(0.0, 1.0), dt) == MoveUp(speed, pos, Vec2(1.0, 1.0), dt)
  {
  }
}
