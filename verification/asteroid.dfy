/** The drifting rocks of js/entities/asteroid.js: creation with a jittered
    silhouette, per-tick drift and spin, size-tiered score, and fragmentation. */
module Asteroids {
  import opened GameMath

  /** One silhouette vertex: polar angle and distance from the rock's centre. */
  datatype Sample = Sample(a: real, r: real)

  datatype Asteroid = Asteroid(
    x: real, y: real,
    vx: real, vy: real,
    angle: real, spin: real,
    radius: real,
    shape: seq<Sample>,
    dead: bool,
    scoreValue: int)

  /** Points for destroying a rock of this radius: smaller remnants are worth more. */
  function ScoreValue(radius: real): (v: int)
    ensures v == 20 <==> radius >= 40.0
    ensures v == 50 <==> 24.0 <= radius < 40.0
    ensures v == 100 <==> radius < 24.0
  {
    if radius >= 40.0 then 20 else if radius >= 24.0 then 50 else 100
  }

  /** The score never grows with the size, and it is always positive. */
  lemma ScoreValueAntitone(r1: real, r2: real)
    requires r1 <= r2
    ensures 0 < ScoreValue(r2) <= ScoreValue(r1)
  {
  }

  /** A rock's stored score matches its radius; every rock the game creates has this. */
  predicate Scored(a: Asteroid) {
    a.scoreValue == ScoreValue(a.radius)
  }

  /** `10 + (Math.random() * 5 | 0)`: the number of silhouette vertices. */
  function SideCount(u: real): (n: int)
    ensures 0.0 <= u < 1.0 ==> 10 <= n <= 14
  {
    10 + Trunc(u * 5.0)
  }

  /** The polar angle of vertex i out of `sides`, `(i / sides) * PI * 2`. */
  function SampleAngle(i: nat, sides: nat): real
    requires 0 < sides
  {
    (i as real / sides as real) * PI * 2.0
  }

  /** Vertex angles are evenly spaced: they strictly increase with the index and
      stay in [0, 2 PI). */
  lemma SampleAngleOrdered(i: nat, j: nat, sides: nat)
    requires i < j < sides
    ensures 0.0 <= SampleAngle(i, sides) < SampleAngle(j, sides) < TAU
  {
    var n := sides as real;
    assert i as real / n < j as real / n by {
      DivideOrdered(i as real, j as real, n);
    }
    assert j as real / n < 1.0 by {
      DivideOrdered(j as real, n, n);
    }
    NonNegativeProduct(i as real / n, PI);
    PositiveProduct(j as real / n - i as real / n, PI);
    PositiveProduct(1.0 - j as real / n, PI);
  }

  lemma DivideOrdered(a: real, b: real, n: real)
    requires 0.0 <= a < b && 0.0 < n
    ensures 0.0 <= a / n < b / n
  {
  }

  /** The silhouette vertices i..sides-1; vertex k draws its distance from
      `random(pos + k - i)`, as the creation loop does. */
  function SamplesFrom(radius: real, sides: nat, i: nat, env: Env, pos: nat): (s: seq<Sample>)
    requires i <= sides
    requires env.Valid()
    decreases sides - i
    ensures |s| == sides - i
    ensures forall k :: 0 <= k < |s| ==> s[k].a == SampleAngle(i + k, sides)
    ensures 0.0 < radius ==> forall k :: 0 <= k < |s| ==> 0.75 * radius <= s[k].r < 1.1 * radius
  {
    if i == sides then []
    else
      var m := RandRange(0.75, 1.1, env.random(pos));
      JitterWithin(radius, m);
      [Sample(SampleAngle(i, sides), radius * m)] + SamplesFrom(radius, sides, i + 1, env, pos + 1)
  }

  lemma JitterWithin(radius: real, m: real)
    requires 0.75 <= m < 1.1
    ensures 0.0 < radius ==> 0.75 * radius <= radius * m < 1.1 * radius
  {
    if 0.0 < radius {
      NonNegativeProduct(radius, m - 0.75);
      PositiveProduct(radius, 1.1 - m);
    }
  }

  /** createAsteroid(x, y, radius). Draws, in order: speed, heading, vertex
      count, one distance per vertex, initial angle, spin. */
  function CreateAsteroid(x: real, y: real, radius: real, env: Env, pos: nat): (d: Drawn<Asteroid>)
    requires env.Valid()
    ensures d.value.x == x && d.value.y == y && d.value.radius == radius
    ensures !d.value.dead && Scored(d.value)
    ensures 10 <= |d.value.shape| <= 14
    ensures forall k :: 0 <= k < |d.value.shape| ==> d.value.shape[k].a == SampleAngle(k, |d.value.shape|)
    ensures 0.0 < radius ==> forall k :: 0 <= k < |d.value.shape| ==>
      0.75 * radius <= d.value.shape[k].r < 1.1 * radius
    ensures 0.0 <= d.value.angle < TAU
    ensures -0.7 <= d.value.spin < 0.7
    ensures d.pos == pos + 5 + |d.value.shape|
  {
    var v := DriftVelocity(radius, env, pos);
    var sides := SideCount(env.random(pos + 2));
    var shape := SamplesFrom(radius, sides, 0, env, pos + 3);
    var next := pos + 3 + sides;
    var a := Asteroid(
      x, y,
      v.x, v.y,
      RandRange(0.0, PI * 2.0, env.random(next)),
      RandRange(-0.7, 0.7, env.random(next + 1)),
      radius, shape, false, ScoreValue(radius));
    Drawn(a, next + 2)
  }

  /** The drift of a new rock, from its first two draws: speed
      `randRange(40, 90) * (radius / 46)` along heading `randRange(0, 2π)`. */
  function DriftVelocity(radius: real, env: Env, pos: nat): Vec
    requires env.Valid()
  {
    var speed := RandRange(40.0, 90.0, env.random(pos)) * (radius / 46.0);
    var dir := RandRange(0.0, PI * 2.0, env.random(pos + 1));
    Vec(env.cos(dir) * speed, env.sin(dir) * speed)
  }

  /** A new rock drifts at `randRange(40, 90) * (radius / 46)` px/s, in the
      drawn direction: its velocity has exactly that length, and a rock of
      positive radius moves at 40 to 90 px/s per 46 px of radius. */
  lemma CreatedVelocity(x: real, y: real, radius: real, env: Env, pos: nat)
    requires env.Valid()
    ensures var a := CreateAsteroid(x, y, radius, env, pos).value;
      var speed := Mul(RandRange(40.0, 90.0, env.random(pos)), radius / 46.0);
      Vec(a.vx, a.vy).Norm2() == Mul(speed, speed) &&
      (0.0 < radius ==> 40.0 * (radius / 46.0) <= speed < 90.0 * (radius / 46.0))
  {
    var a := CreateAsteroid(x, y, radius, env, pos).value;
    assert Vec(a.vx, a.vy) == DriftVelocity(radius, env, pos);
    DriftLength(radius, env, pos);
  }

  lemma DriftLength(radius: real, env: Env, pos: nat)
    requires env.Valid()
    ensures var speed := Mul(RandRange(40.0, 90.0, env.random(pos)), radius / 46.0);
      DriftVelocity(radius, env, pos).Norm2() == Mul(speed, speed) &&
      (0.0 < radius ==> 40.0 * (radius / 46.0) <= speed < 90.0 * (radius / 46.0))
  {
    var u := RandRange(40.0, 90.0, env.random(pos));
    var dir := RandRange(0.0, PI * 2.0, env.random(pos + 1));
    var c, n := env.cos(dir), env.sin(dir);
    assert c * c + n * n == 1.0;
    assert DriftVelocity(radius, env, pos) == Vec(c * Mul(u, radius / 46.0), n * Mul(u, radius / 46.0));
    SpeedRange(u, radius / 46.0);
    HeadingLength(c, n, Mul(u, radius / 46.0));
  }

  /** A unit heading scaled by `speed` has squared length `speed * speed`. */
  lemma HeadingLength(c: real, n: real, speed: real)
    requires c * c + n * n == 1.0
    ensures Vec(c * speed, n * speed).Norm2() == Mul(speed, speed)
  {
    UnitScaled(c, n, speed);
  }

  /** A drawn speed factor in [40, 90) scaled by a positive size factor. */
  lemma SpeedRange(u: real, k: real)
    requires 40.0 <= u < 90.0
    ensures 0.0 < k ==> 40.0 * k <= Mul(u, k) < 90.0 * k
  {
    if 0.0 < k {
      NonNegativeProduct(u - 40.0, k);
      PositiveProduct(90.0 - u, k);
    }
  }

  /** Vertex angles of a new rock strictly increase around the silhouette. */
  lemma CreatedShapeOrdered(x: real, y: real, radius: real, env: Env, pos: nat, i: nat, j: nat)
    requires env.Valid()
    requires i < j < |CreateAsteroid(x, y, radius, env, pos).value.shape|
    ensures var s := CreateAsteroid(x, y, radius, env, pos).value.shape;
      0.0 <= s[i].a < s[j].a < TAU
  {
    SampleAngleOrdered(i, j, |CreateAsteroid(x, y, radius, env, pos).value.shape|);
  }

  /** One rock over one tick: drift, wrap, spin. */
  function UpdateAsteroid(a: Asteroid, dt: real, width: real, height: real): Asteroid {
    a.(x := Drift(a.x, a.vx, dt, width),
       y := Drift(a.y, a.vy, dt, height),
       angle := a.angle + a.spin * dt)
  }

  /** updateAsteroids: every rock moves; nothing is added, removed or reordered, and
      only position and angle change. */
  function UpdateAsteroids(rocks: seq<Asteroid>, dt: real, width: real, height: real): (r: seq<Asteroid>)
    ensures |r| == |rocks|
    ensures forall i :: 0 <= i < |r| ==>
      r[i].(x := rocks[i].x, y := rocks[i].y, angle := rocks[i].angle) == rocks[i]
    ensures forall i :: 0 <= i < |r| ==> r[i].angle == rocks[i].angle + rocks[i].spin * dt
    ensures forall i :: 0 <= i < |r| ==>
      r[i].x == Drift(rocks[i].x, rocks[i].vx, dt, width) &&
      r[i].y == Drift(rocks[i].y, rocks[i].vy, dt, height)
  {
    seq(|rocks|, i requires 0 <= i < |rocks| => UpdateAsteroid(rocks[i], dt, width, height))
  }

  /** A rock inside the field whose step is shorter than the field stays inside. */
  predicate InField(x: real, y: real, width: real, height: real) {
    0.0 <= x < width && 0.0 <= y < height
  }

  predicate SmallStep(vx: real, vy: real, dt: real, width: real, height: real) {
    -width <= vx * dt < width && -height <= vy * dt < height
  }

  lemma UpdateAsteroidsInField(rocks: seq<Asteroid>, dt: real, width: real, height: real)
    requires forall i :: 0 <= i < |rocks| ==> InField(rocks[i].x, rocks[i].y, width, height)
    requires forall i :: 0 <= i < |rocks| ==> SmallStep(rocks[i].vx, rocks[i].vy, dt, width, height)
    ensures var r := UpdateAsteroids(rocks, dt, width, height);
      forall i :: 0 <= i < |r| ==> InField(r[i].x, r[i].y, width, height)
  {
    var r := UpdateAsteroids(rocks, dt, width, height);
    forall i | 0 <= i < |r|
      ensures InField(r[i].x, r[i].y, width, height)
    {
      var a := rocks[i];
      assert Mul(a.vx, dt) == a.vx * dt && Mul(a.vy, dt) == a.vy * dt;
      DriftStaysInField(a.x, a.vx, dt, width);
      DriftStaysInField(a.y, a.vy, dt, height);
      assert r[i].x == Drift(a.x, a.vx, dt, width) && r[i].y == Drift(a.y, a.vy, dt, height);
    }
  }

  /** splitAsteroid: a rock larger than 18 breaks into two rocks at its position,
      of 0.6 and 0.5 times its radius; a smaller one leaves nothing and draws nothing. */
  function SplitAsteroid(a: Asteroid, env: Env, pos: nat): (d: Drawn<seq<Asteroid>>)
    requires env.Valid()
    ensures a.radius > 18.0 ==>
      |d.value| == 2 && d.value[0].radius == 0.6 * a.radius && d.value[1].radius == 0.5 * a.radius
    ensures a.radius <= 18.0 ==> d.value == [] && d.pos == pos
    ensures forall k :: 0 <= k < |d.value| ==>
      d.value[k].x == a.x && d.value[k].y == a.y && !d.value[k].dead &&
      Scored(d.value[k]) && 0.0 < d.value[k].radius < a.radius
    ensures pos <= d.pos
  {
    var r := a.radius;
    if r > 18.0 then
      var first := CreateAsteroid(a.x, a.y, r * 0.6, env, pos);
      var second := CreateAsteroid(a.x, a.y, r * 0.5, env, first.pos);
      Drawn([first.value, second.value], second.pos)
    else
      Drawn([], pos)
  }
}
