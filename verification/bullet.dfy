/** The ship's shots of js/entities/bullet.js: spawned at the nose, then flying
    straight and wrapping until their time-to-live runs out. */
module Bullets {
  import opened GameMath
  import opened Ships

  datatype Bullet = Bullet(x: real, y: real, vx: real, vy: real, ttl: real, r: real, dead: bool)

  const BulletSpeed: real := 580.0
  const BulletLife: real := 1.15

  /** createBullet(ship). The shot leaves the nose, `radius + 2` ahead along the
      heading, at 580 along the heading plus a fifth of the ship's velocity. */
  function CreateBullet(s: Ship, env: Env): (b: Bullet)
    ensures b.ttl == BulletLife && b.r == 2.0 && !b.dead
    ensures b.vx - 0.2 * s.vx == env.cos(s.angle) * BulletSpeed
    ensures b.vy - 0.2 * s.vy == env.sin(s.angle) * BulletSpeed
    ensures b.x - s.x == env.cos(s.angle) * (s.radius + 2.0)
    ensures b.y - s.y == env.sin(s.angle) * (s.radius + 2.0)
  {
    var c := env.cos(s.angle);
    var n := env.sin(s.angle);
    Bullet(
      s.x + c * (s.radius + 2.0),
      s.y + n * (s.radius + 2.0),
      c * BulletSpeed + s.vx * 0.2,
      n * BulletSpeed + s.vy * 0.2,
      BulletLife, 2.0, false)
  }

  /** With a unit heading the shot appears exactly `radius + 2` from the ship's
      centre, and its speed relative to a fifth of the ship's velocity is 580. */
  lemma BulletLeavesNose(s: Ship, env: Env)
    requires env.Valid()
    ensures var b := CreateBullet(s, env);
      Dist2(b.x, b.y, s.x, s.y) == (s.radius + 2.0) * (s.radius + 2.0) &&
      Dist2(b.vx, b.vy, 0.2 * s.vx, 0.2 * s.vy) == BulletSpeed * BulletSpeed
  {
    var c, n := env.cos(s.angle), env.sin(s.angle);
    assert c * c + n * n == 1.0;
    ScaledUnit(c, n, s.radius + 2.0);
    ScaledUnit(c, n, BulletSpeed);
  }

  lemma ScaledUnit(c: real, s: real, k: real)
    requires c * c + s * s == 1.0
    ensures Mul(c * k, c * k) + Mul(s * k, s * k) == k * k
  {
    assert (c * k) * (c * k) + (s * k) * (s * k) == (c * c + s * s) * (k * k);
  }

  /** One shot over one tick: its life shortens by dt, it moves and wraps. */
  function UpdateBullet(b: Bullet, dt: real, width: real, height: real): Bullet {
    b.(ttl := b.ttl - dt,
       x := Drift(b.x, b.vx, dt, width),
       y := Drift(b.y, b.vy, dt, height))
  }

  /** updateBullets: every shot ages by exactly dt and moves; none is removed here,
      and velocity, radius and dead flag are kept. */
  function UpdateBullets(shots: seq<Bullet>, dt: real, width: real, height: real): (r: seq<Bullet>)
    ensures |r| == |shots|
    ensures forall i :: 0 <= i < |r| ==> r[i].ttl == shots[i].ttl - dt
    ensures forall i :: 0 <= i < |r| ==>
      r[i].(x := shots[i].x, y := shots[i].y, ttl := shots[i].ttl) == shots[i]
    ensures forall i :: 0 <= i < |r| ==>
      r[i].x == Drift(shots[i].x, shots[i].vx, dt, width) &&
      r[i].y == Drift(shots[i].y, shots[i].vy, dt, height)
  {
    seq(|shots|, i requires 0 <= i < |shots| => UpdateBullet(shots[i], dt, width, height))
  }

  /** Shots inside the field that move less than one field size per tick stay inside. */
  lemma UpdateBulletsInField(shots: seq<Bullet>, dt: real, width: real, height: real)
    requires forall i :: 0 <= i < |shots| ==> 0.0 <= shots[i].x < width && 0.0 <= shots[i].y < height
    requires forall i :: 0 <= i < |shots| ==>
      -width <= shots[i].vx * dt < width && -height <= shots[i].vy * dt < height
    ensures var r := UpdateBullets(shots, dt, width, height);
      forall i :: 0 <= i < |r| ==> 0.0 <= r[i].x < width && 0.0 <= r[i].y < height
  {
    var r := UpdateBullets(shots, dt, width, height);
    forall i | 0 <= i < |r|
      ensures 0.0 <= r[i].x < width && 0.0 <= r[i].y < height
    {
      var a := shots[i];
      assert Mul(a.vx, dt) == a.vx * dt && Mul(a.vy, dt) == a.vy * dt;
      DriftStaysInField(a.x, a.vx, dt, width);
      DriftStaysInField(a.y, a.vy, dt, height);
      assert r[i].x == Drift(a.x, a.vx, dt, width) && r[i].y == Drift(a.y, a.vy, dt, height);
    }
  }

  /** The time-to-live after a run of ticks: the sum of their dts is subtracted. */
  function Age(shots: seq<Bullet>, dts: seq<real>, width: real, height: real): seq<Bullet>
    decreases |dts|
  {
    if dts == [] then shots else Age(UpdateBullets(shots, dts[0], width, height), dts[1..], width, height)
  }

  function Sum(dts: seq<real>): real {
    if dts == [] then 0.0 else dts[0] + Sum(dts[1..])
  }

  /** A fresh shot expires once the ticks it has lived through add up to 1.15
      seconds: its ttl is then at most 0 and the session prunes it. */
  lemma {:induction false} AgeSubtractsElapsed(shots: seq<Bullet>, dts: seq<real>, width: real, height: real)
    ensures var r := Age(shots, dts, width, height);
      |r| == |shots| && forall i :: 0 <= i < |r| ==> r[i].ttl == shots[i].ttl - Sum(dts)
    decreases |dts|
  {
    if dts != [] {
      var next := UpdateBullets(shots, dts[0], width, height);
      AgeSubtractsElapsed(next, dts[1..], width, height);
    }
  }
}
