/** The player's craft of js/entities/ship.js: turning, thrust, speed limit,
    frame-rate independent drag, wrap-around, fire cooldown and the
    invulnerability window after a (re)spawn. */
module Ships {
  import opened GameMath

  datatype Ship = Ship(
    x: real, y: real,
    vx: real, vy: real,
    angle: real,
    radius: real,
    turnSpeed: real,
    thrust: real,
    maxSpeed: real,
    drag: real,
    cooldown: real,
    fireDelay: real,
    invuln: real,
    blink: real,
    canShoot: bool)

  /** Facing up the screen: -PI / 2. */
  const SpawnAngle: real := -PI / 2.0
  const SpawnInvuln: real := 2.0

  /** The craft's tuning constants: collision radius, turn rate (rad/s), thrust
      (px/s^2), top speed (px/s), drag per 60 Hz frame, and delay between shots (s). */
  predicate Tuned(s: Ship) {
    s.radius == 12.0 && s.turnSpeed == 3.6 && s.thrust == 240.0 &&
    s.maxSpeed == 420.0 && s.drag == 0.995 && s.fireDelay == 0.22
  }

  /** The same craft up to its tuning constants: none of them ever changes. */
  predicate SameTuning(s: Ship, t: Ship) {
    s.radius == t.radius && s.turnSpeed == t.turnSpeed && s.thrust == t.thrust &&
    s.maxSpeed == t.maxSpeed && s.drag == t.drag && s.fireDelay == t.fireDelay
  }

  /** createShip(x, y): at rest, facing up, ready to fire, invulnerable for 2 s. */
  function CreateShip(x: real, y: real): (s: Ship)
    ensures Tuned(s)
    ensures s.x == x && s.y == y && s.vx == 0.0 && s.vy == 0.0 && s.angle == SpawnAngle
    ensures s.cooldown == 0.0 && s.canShoot
    ensures s.invuln == SpawnInvuln && s.blink == 0.0
  {
    Ship(x, y, 0.0, 0.0, SpawnAngle, 12.0, 3.6, 240.0, 420.0, 0.995, 0.0, 0.22, 2.0, 0.0, true)
  }

  /** respawnShip: back to the centre of the window (cx, cy), at rest, facing up,
      invulnerable again; cooldown, fire readiness and tuning are left alone. */
  function RespawnShip(s: Ship, cx: real, cy: real): (r: Ship)
    ensures r.x == cx && r.y == cy && r.vx == 0.0 && r.vy == 0.0 && r.angle == SpawnAngle
    ensures r.invuln == SpawnInvuln && r.blink == 0.0
    ensures r.(x := s.x, y := s.y, vx := s.vx, vy := s.vy, angle := s.angle,
               invuln := s.invuln, blink := s.blink) == s
  {
    s.(x := cx, y := cy, vx := 0.0, vy := 0.0, angle := SpawnAngle, invuln := SpawnInvuln, blink := 0.0)
  }

  /** The direction keys held during a tick. */
  datatype Controls = Controls(left: bool, right: bool, thrust: bool)

  /** The heading after the turn keys, before normalisation: left turns
      counter-clockwise first, then right turns back, so both together cancel. */
  function TurnedAngle(s: Ship, keys: Controls, dt: real): (r: real)
    ensures keys.left && !keys.right ==> r == s.angle - s.turnSpeed * dt
    ensures keys.right && !keys.left ==> r == s.angle + s.turnSpeed * dt
    ensures keys.left == keys.right ==> r == s.angle
  {
    var a := if keys.left then s.angle - s.turnSpeed * dt else s.angle;
    if keys.right then a + s.turnSpeed * dt else a
  }

  /** One correction by a full turn in each direction. An angle of exactly 2 PI
      is not reduced: the test is `> TAU`, not `>= TAU`. */
  function NormalizeAngle(a: real): (r: real)
    ensures -TAU <= a <= 2.0 * TAU ==> 0.0 <= r <= TAU
    ensures 0.0 <= a <= TAU ==> r == a
    ensures r == a || r == a - TAU || r == a + TAU
  {
    var b := if a > TAU then a - TAU else a;
    if b < 0.0 then b + TAU else b
  }

  /** The speed limit: a velocity faster than `maxSpeed` is scaled down onto the
      limit, keeping its direction; `speed` is Math.hypot of the velocity. */
  function ClampSpeed(v: Vec, maxSpeed: real, env: Env): (r: Vec)
    requires env.Valid()
    requires 0.0 <= maxSpeed
    ensures r.Norm2() <= maxSpeed * maxSpeed
    ensures v.Norm2() <= maxSpeed * maxSpeed ==> r == v
    ensures r.x * v.y == r.y * v.x
    ensures 0.0 <= r.x * v.x && 0.0 <= r.y * v.y
  {
    var speed := env.hypot(v.x, v.y);
    if speed > maxSpeed then
      var k := maxSpeed / speed;
      ScaleOntoLimit(v, speed, maxSpeed);
      Vec(v.x * k, v.y * k)
    else
      BelowLimit(v, speed, maxSpeed);
      v
  }

  lemma ScaleOntoLimit(v: Vec, speed: real, maxSpeed: real)
    requires 0.0 <= speed && speed * speed == v.Norm2()
    requires 0.0 <= maxSpeed < speed
    ensures var r := Vec(v.x * (maxSpeed / speed), v.y * (maxSpeed / speed));
      r.Norm2() <= maxSpeed * maxSpeed && r.x * v.y == r.y * v.x &&
      0.0 <= r.x * v.x && 0.0 <= r.y * v.y
    ensures maxSpeed * maxSpeed < v.Norm2()
  {
    var x, y := v.x, v.y;
    PositiveProduct(speed - maxSpeed, speed + maxSpeed);
    var k := maxSpeed / speed;
    assert k * speed == maxSpeed;
    assert (x * k) * (x * k) + (y * k) * (y * k) == k * k * (x * x + y * y);
    assert k * k * (speed * speed) == (k * speed) * (k * speed);
    assert 0.0 <= k;
    assert (x * k) * x == k * (x * x);
    assert (y * k) * y == k * (y * y);
    SquareNonNegative(x);
    SquareNonNegative(y);
    NonNegativeProduct(k, x * x);
    NonNegativeProduct(k, y * y);
  }

  lemma BelowLimit(v: Vec, speed: real, maxSpeed: real)
    requires 0.0 <= speed && speed * speed == v.Norm2()
    requires speed <= maxSpeed
    ensures v.Norm2() <= maxSpeed * maxSpeed
    ensures 0.0 <= v.x * v.x && 0.0 <= v.y * v.y
  {
    SquareNonNegative(v.x);
    SquareNonNegative(v.y);
    NonNegativeProduct(speed, maxSpeed - speed);
    NonNegativeProduct(maxSpeed, maxSpeed - speed);
  }

  /** Drag by a factor in (0, 1] never speeds the craft up. */
  function ApplyDrag(v: Vec, factor: real): (r: Vec)
    ensures 0.0 < factor <= 1.0 ==> r.Norm2() <= v.Norm2()
    ensures r.x * v.y == r.y * v.x
    ensures 0.0 <= factor ==> 0.0 <= r.x * v.x && 0.0 <= r.y * v.y
  {
    DragShrinks(v.x, v.y, factor);
    Vec(v.x * factor, v.y * factor)
  }

  lemma DragShrinks(x: real, y: real, f: real)
    ensures 0.0 < f <= 1.0 ==> Mul(x * f, x * f) + Mul(y * f, y * f) <= x * x + y * y
    ensures Mul(x * f, y) == Mul(y * f, x)
    ensures 0.0 <= f ==> 0.0 <= Mul(x * f, x) && 0.0 <= Mul(y * f, y)
  {
    if 0.0 <= f {
      assert (x * f) * x == f * (x * x) && (y * f) * y == f * (y * y);
      SquareNonNegative(x);
      SquareNonNegative(y);
      NonNegativeProduct(f, x * x);
      NonNegativeProduct(f, y * y);
    }
    if 0.0 < f <= 1.0 {
      assert (x * f) * (x * f) + (y * f) * (y * f) == (f * f) * (x * x + y * y);
      SquareNonNegative(x);
      SquareNonNegative(y);
      assert f * f <= 1.0 by {
        NonNegativeProduct(f, 1.0 - f);
      }
      NonNegativeProduct(1.0 - f * f, x * x + y * y);
    }
  }

  /** The velocity after the thrust impulse of one tick: `thrust * dt` along
      the heading `angle` while thrust is held, the old velocity otherwise. The
      source multiplies cos(angle) by thrust and then by dt; in real
      arithmetic the grouping does not matter. */
  function Pushed(s: Ship, keys: Controls, angle: real, dt: real, env: Env): (v: Vec)
    ensures !keys.thrust ==> v == Vec(s.vx, s.vy)
  {
    if keys.thrust then
      var k := s.thrust * dt;
      Vec(s.vx + env.cos(angle) * k, s.vy + env.sin(angle) * k)
    else
      Vec(s.vx, s.vy)
  }

  /** While thrust is held, the impulse has length `thrust * dt` and lies
      along the heading: its projection on the unit heading is the whole
      `thrust * dt`. */
  lemma ThrustImpulse(s: Ship, keys: Controls, angle: real, dt: real, env: Env)
    requires env.Valid() && keys.thrust
    ensures var v := Pushed(s, keys, angle, dt, env);
      Mul(v.x - s.vx, v.x - s.vx) + Mul(v.y - s.vy, v.y - s.vy) == Mul(s.thrust * dt, s.thrust * dt) &&
      Mul(v.x - s.vx, env.cos(angle)) + Mul(v.y - s.vy, env.sin(angle)) == s.thrust * dt
  {
    var c, n, k := env.cos(angle), env.sin(angle), s.thrust * dt;
    var v := Pushed(s, keys, angle, dt, env);
    assert c * c + n * n == 1.0;
    UnitScaled(c, n, k);
    assert v.x - s.vx == c * k && v.y - s.vy == n * k;
  }

  /** The velocity at the end of updateShip's physics: the thrust impulse along
      the new heading, the speed limit, then drag by Math.pow(drag, dt * 60).
      It never exceeds the limit, and a craft coasting within the limit is only
      slowed by drag. */
  function ShipVelocity(s: Ship, keys: Controls, angle: real, dt: real, env: Env): (v: Vec)
    requires env.Valid()
    requires 0.0 <= s.maxSpeed
    ensures 0.0 < s.drag <= 1.0 && 0.0 <= dt ==> v.Norm2() <= s.maxSpeed * s.maxSpeed
    ensures !keys.thrust && Vec(s.vx, s.vy).Norm2() <= s.maxSpeed * s.maxSpeed ==>
      var f := env.pow(s.drag, dt * 60.0);
      v == Vec(s.vx * f, s.vy * f)
  {
    var limited := ClampSpeed(Pushed(s, keys, angle, dt, env), s.maxSpeed, env);
    var f := env.pow(s.drag, dt * 60.0);
    assert 0.0 < s.drag <= 1.0 && 0.0 <= dt ==> 0.0 < f <= 1.0 by {
      if 0.0 < s.drag <= 1.0 && 0.0 <= dt {
        assert 0.0 <= dt * 60.0;
      }
    }
    ApplyDrag(limited, f)
  }

  /** The outcome of updateShip: the new craft, and the value it passed to the
      thrust callback (called exactly once, with whether thrust is held). */
  datatype ShipStep = ShipStep(ship: Ship, thrusting: bool)

  /** updateShip. The heading comes from the host's cos and sin of the turned
      angle; the drag factor is Math.pow(drag, dt * 60). */
  function UpdateShip(s: Ship, keys: Controls, dt: real, width: real, height: real, env: Env): (r: ShipStep)
    requires env.Valid()
    requires 0.0 <= s.maxSpeed
    ensures r.thrusting == keys.thrust
    ensures SameTuning(r.ship, s)
    ensures r.ship.angle == NormalizeAngle(TurnedAngle(s, keys, dt))
    ensures var raw := TurnedAngle(s, keys, dt);
      -TAU <= raw <= 2.0 * TAU ==> 0.0 <= r.ship.angle <= TAU
    ensures Vec(r.ship.vx, r.ship.vy) == ShipVelocity(s, keys, r.ship.angle, dt, env)
    ensures r.ship.x == Drift(s.x, r.ship.vx, dt, width) && r.ship.y == Drift(s.y, r.ship.vy, dt, height)
    ensures r.ship.cooldown == s.cooldown - dt
    ensures r.ship.canShoot <==> r.ship.cooldown <= 0.0
    ensures s.invuln > 0.0 ==> r.ship.invuln == s.invuln - dt && r.ship.blink == s.blink + 20.0 * dt
    ensures s.invuln <= 0.0 ==> r.ship.invuln == s.invuln && r.ship.blink == s.blink
    ensures 0.0 < s.drag <= 1.0 && 0.0 <= dt ==>
      Vec(r.ship.vx, r.ship.vy).Norm2() <= s.maxSpeed * s.maxSpeed
  {
    var angle := NormalizeAngle(TurnedAngle(s, keys, dt));
    var v := ShipVelocity(s, keys, angle, dt, env);
    var cooldown := s.cooldown - dt;
    var ship := s.(
      angle := angle,
      vx := v.x, vy := v.y,
      x := Drift(s.x, v.x, dt, width),
      y := Drift(s.y, v.y, dt, height),
      cooldown := cooldown,
      canShoot := cooldown <= 0.0,
      invuln := if s.invuln > 0.0 then s.invuln - dt else s.invuln,
      blink := if s.invuln > 0.0 then s.blink + dt * 20.0 else s.blink);
    ShipStep(ship, keys.thrust)
  }

  /** didShoot: the cooldown restarts at the fire delay; nothing else changes
      (in particular `canShoot` stays as it was until the next update). */
  function DidShoot(s: Ship): (r: Ship)
    ensures r.cooldown == r.fireDelay
    ensures r.(cooldown := s.cooldown) == s
  {
    s.(cooldown := s.fireDelay)
  }

  /** With a speed limit that covers less than one field per tick, a craft inside
      the field stays inside after updateShip. */
  lemma UpdateShipInField(s: Ship, keys: Controls, dt: real, width: real, height: real, env: Env)
    requires env.Valid()
    requires 0.0 <= s.maxSpeed && 0.0 < s.drag <= 1.0 && 0.0 <= dt
    requires s.maxSpeed * dt < width && s.maxSpeed * dt < height
    requires 0.0 <= s.x < width && 0.0 <= s.y < height
    ensures var t := UpdateShip(s, keys, dt, width, height, env).ship;
      0.0 <= t.x < width && 0.0 <= t.y < height
  {
    var t := UpdateShip(s, keys, dt, width, height, env).ship;
    StepInField(s, t, dt, width, height);
  }

  /** A craft whose new velocity is within the limit and whose new position is
      the old one drifted by it stays in the field. */
  lemma StepInField(s: Ship, t: Ship, dt: real, width: real, height: real)
    requires 0.0 <= s.maxSpeed && 0.0 <= dt
    requires s.maxSpeed * dt < width && s.maxSpeed * dt < height
    requires 0.0 <= s.x < width && 0.0 <= s.y < height
    requires Vec(t.vx, t.vy).Norm2() <= s.maxSpeed * s.maxSpeed
    requires t.x == Drift(s.x, t.vx, dt, width) && t.y == Drift(s.y, t.vy, dt, height)
    ensures 0.0 <= t.x < width && 0.0 <= t.y < height
  {
    var v := Vec(t.vx, t.vy);
    AxisInField(s.x, v, true, s.maxSpeed, dt, width);
    AxisInField(s.y, v, false, s.maxSpeed, dt, height);
  }

  /** One coordinate (x when `first`, else y) of a craft no faster than `m`,
      moving for a tick that covers less than the field, stays in the field. */
  lemma AxisInField(p: real, v: Vec, first: bool, m: real, dt: real, size: real)
    requires v.Norm2() <= m * m
    requires 0.0 <= m && 0.0 <= dt && m * dt < size
    requires 0.0 <= p < size
    ensures 0.0 <= Drift(p, if first then v.x else v.y, dt, size) < size
  {
    var a, b := if first then v.x else v.y, if first then v.y else v.x;
    assert Vec(a, b).Norm2() == v.Norm2();
    ComponentBound(a, b, m, dt);
    assert Mul(m, dt) == m * dt;
    DriftStaysInField(p, a, dt, size);
  }

  /** One velocity component covers at most `m * dt` when the speed is at most m. */
  lemma ComponentBound(a: real, b: real, m: real, dt: real)
    requires Vec(a, b).Norm2() <= m * m
    requires 0.0 <= m && 0.0 <= dt
    ensures -Mul(m, dt) <= Mul(a, dt) <= Mul(m, dt)
  {
    SquareNonNegative(b);
    if a > m {
      PositiveProduct(a - m, a + m);
    }
    if a < -m {
      PositiveProduct(-m - a, m - a);
    }
    NonNegativeProduct(m - a, dt);
    NonNegativeProduct(m + a, dt);
  }
}
