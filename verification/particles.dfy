/** The particle system of js/systems/particles.js: short-lived sparks that drift,
    wrap, fade out and are dropped once their time-to-live runs out. */
module Particles {
  import opened GameMath

  /** The fill colour a particle was added with: explosion sparks or thrust flame. */
  datatype Tint = Spark | Flame

  /** `life` is the lifetime it was created with; `ttl` is what is left of it. */
  datatype Particle = Particle(
    x: real, y: real,
    vx: real, vy: real,
    life: real, ttl: real,
    size: real,
    tint: Tint)

  /** particles.add: one particle appended after all existing ones, starting
      with its whole life ahead of it. */
  function Add(ps: seq<Particle>, x: real, y: real, vx: real, vy: real, life: real, size: real, tint: Tint): (r: seq<Particle>)
    ensures |r| == |ps| + 1 && r[..|ps|] == ps
    ensures r[|ps|].ttl == r[|ps|].life == life
    ensures r[|ps|] == Particle(x, y, vx, vy, life, life, size, tint)
  {
    ps + [Particle(x, y, vx, vy, life, life, size, tint)]
  }

  /** One particle over one tick, before the filter: age, move, wrap. */
  function AdvanceParticle(p: Particle, dt: real, width: real, height: real): (q: Particle)
    ensures q.ttl == p.ttl - dt
    ensures q.(x := p.x, y := p.y, ttl := p.ttl) == p
  {
    p.(ttl := p.ttl - dt,
       x := Drift(p.x, p.vx, dt, width),
       y := Drift(p.y, p.vy, dt, height))
  }

  /** Whether a particle is still alive after this tick's aging. */
  predicate Survives(p: Particle, dt: real) {
    p.ttl - dt > 0.0
  }

  /** updateParticles: every particle is advanced, then those whose ttl is no
      longer positive are dropped. */
  function UpdateParticles(ps: seq<Particle>, dt: real, width: real, height: real): (r: seq<Particle>)
    ensures |r| <= |ps|
    ensures forall k :: 0 <= k < |r| ==> r[k].ttl > 0.0
    decreases |ps|
  {
    if ps == [] then []
    else
      var n := |ps| - 1;
      var kept := UpdateParticles(ps[..n], dt, width, height);
      if Survives(ps[n], dt) then kept + [AdvanceParticle(ps[n], dt, width, height)] else kept
  }

  /** The positions of the surviving particles, in increasing order: an
      independent description of which particles the filter keeps. */
  function Survivors(ps: seq<Particle>, dt: real): (idx: seq<nat>)
    ensures forall k :: 0 <= k < |idx| ==> idx[k] < |ps| && Survives(ps[idx[k]], dt)
    ensures forall a, b :: 0 <= a < b < |idx| ==> idx[a] < idx[b]
    ensures forall i :: 0 <= i < |ps| && Survives(ps[i], dt) ==> i in idx
    decreases |ps|
  {
    if ps == [] then []
    else
      var n := |ps| - 1;
      var before := Survivors(ps[..n], dt);
      if Survives(ps[n], dt) then before + [n] else before
  }

  /** The filter keeps exactly the particles whose aged ttl is positive, each
      advanced by one tick, in their original relative order. */
  lemma {:induction false} UpdateParticlesKeepsSurvivors(ps: seq<Particle>, dt: real, width: real, height: real)
    ensures var r := UpdateParticles(ps, dt, width, height);
      var idx := Survivors(ps, dt);
      |r| == |idx| &&
      forall k :: 0 <= k < |r| ==> r[k] == AdvanceParticle(ps[idx[k]], dt, width, height)
    decreases |ps|
  {
    if ps != [] {
      var n := |ps| - 1;
      var kept := UpdateParticles(ps[..n], dt, width, height);
      var idx0 := Survivors(ps[..n], dt);
      UpdateParticlesKeepsSurvivors(ps[..n], dt, width, height);
      var r := UpdateParticles(ps, dt, width, height);
      var idx := Survivors(ps, dt);
      if Survives(ps[n], dt) {
        assert r == kept + [AdvanceParticle(ps[n], dt, width, height)];
        assert idx == idx0 + [n];
      } else {
        assert r == kept && idx == idx0;
      }
      forall k | 0 <= k < |kept|
        ensures r[k] == AdvanceParticle(ps[idx[k]], dt, width, height)
      {
        assert r[k] == kept[k] && idx[k] == idx0[k];
        assert ps[..n][idx0[k]] == ps[idx0[k]];
      }
    }
  }

  /** The number of particles of one explosion, `12 + (radius / 4 | 0)`; a
      count of zero or less adds nothing. */
  function BlastSize(radius: real): (n: int)
    ensures 0.0 <= radius ==> 12 <= n && (n - 12) as real <= radius / 4.0 < (n - 11) as real
  {
    12 + Trunc(radius / 4.0)
  }

  /** One explosion spark from four draws: heading, speed, life, size. */
  function Spark4(x: real, y: real, env: Env, pos: nat): (p: Particle)
    requires env.Valid()
    ensures p.x == x && p.y == y && p.tint == Spark && p.ttl == p.life
    ensures 0.6 <= p.life < 1.2 && 2.0 <= p.size < 4.0
  {
    var a := env.random(pos) * PI * 2.0;
    var sp := 60.0 + env.random(pos + 1) * 200.0;
    var life := 0.6 + env.random(pos + 2) * 0.6;
    var size := 2.0 + env.random(pos + 3) * 2.0;
    Particle(x, y, env.cos(a) * sp, env.sin(a) * sp, life, life, size, Spark)
  }

  /** A spark as explode creates it: at the blast centre, full life in
      [0.6, 1.2), size in [2, 4). */
  predicate BlastSpark(p: Particle, x: real, y: real) {
    p.x == x && p.y == y && p.tint == Spark && p.ttl == p.life &&
    0.6 <= p.life < 1.2 && 2.0 <= p.size < 4.0
  }

  /** `count` more sparks appended, consuming four draws each. */
  function Sparks(ps: seq<Particle>, x: real, y: real, count: nat, env: Env, pos: nat): (d: Drawn<seq<Particle>>)
    requires env.Valid()
    ensures |d.value| == |ps| + count && d.value[..|ps|] == ps
    ensures forall i :: |ps| <= i < |d.value| ==> BlastSpark(d.value[i], x, y)
    ensures d.pos == pos + 4 * count
    decreases count
  {
    if count == 0 then Drawn(ps, pos)
    else
      var s := Spark4(x, y, env, pos);
      var more := Add(ps, s.x, s.y, s.vx, s.vy, s.life, s.size, Spark);
      var rest := Sparks(more, x, y, count - 1, env, pos + 4);
      assert rest.value[..|ps|] == rest.value[..|more|][..|ps|];
      rest
  }

  /** explode(particles, x, y, radius): appends 12 + (radius / 4 | 0) sparks at
      (x, y) after the existing particles, which are left as they were. */
  function Explode(ps: seq<Particle>, x: real, y: real, radius: real, env: Env, pos: nat): (d: Drawn<seq<Particle>>)
    requires env.Valid()
    ensures 0.0 <= radius ==> |d.value| == |ps| + BlastSize(radius)
    ensures |ps| <= |d.value| && d.value[..|ps|] == ps
    ensures forall i :: |ps| <= i < |d.value| ==> BlastSpark(d.value[i], x, y)
    ensures pos <= d.pos
  {
    var n := BlastSize(radius);
    Sparks(ps, x, y, if n < 0 then 0 else n, env, pos)
  }
}
