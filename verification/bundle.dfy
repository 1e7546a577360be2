/** bundle.js is the same game as the module files, written out as one
    script. Its math helpers, input, particles, ship, bullets, asteroids,
    collisions, wave spawner and main loop behave as the module versions do, so
    the model above stands for both copies; the lemmas here state, against the
    bundled lines, the properties that matter most. */
module Bundle {
  import opened GameMath
  import opened Wrappers
  import opened Asteroids
  import opened Bullets
  import opened Ships
  import opened Particles
  import opened Collisions
  import opened Waves
  import opened Input
  import opened Session

  /** The key map of createInput: every code maps to the action whose bindings
      list it, a one-shot press survives at most to the end of its frame, and a
      press is reported once. */
  lemma InputAgrees(code: string, k: Keys, a: Action)
    ensures KeyToAction(code) == Some(a) <==> code in KeysOf(a)
    ensures OneShot(a) ==> a !in NextFrame(k).pressed
    ensures !OneShot(a) ==> (a in NextFrame(k).pressed <==> a in k.pressed)
    ensures !WasPressed(WasPressed(k, a).keys, a).had
  {
    KeyToActionMatchesBindings(code, a);
    WasPressedOnce(k, a);
  }

  /** updateParticles with its filter: exactly the survivors, each advanced. */
  lemma ParticlesAgree(ps: seq<Particle>, dt: real, width: real, height: real)
    ensures var r := UpdateParticles(ps, dt, width, height);
      var idx := Survivors(ps, dt);
      |r| == |idx| &&
      (forall k :: 0 <= k < |r| ==> r[k] == AdvanceParticle(ps[idx[k]], dt, width, height) && r[k].ttl > 0.0)
  {
    UpdateParticlesKeepsSurvivors(ps, dt, width, height);
  }

  /** The bundled updateShip: tuning untouched, the speed never above the
      limit after drag, and a craft inside the field stays inside when the limit
      covers less than the field in one tick. */
  lemma ShipAgrees(s: Ship, keys: Controls, dt: real, width: real, height: real, env: Env)
    requires env.Valid() && Tuned(s) && 0.0 <= dt
    requires s.maxSpeed * dt < width && s.maxSpeed * dt < height
    requires 0.0 <= s.x < width && 0.0 <= s.y < height
    ensures var t := UpdateShip(s, keys, dt, width, height, env).ship;
      Tuned(t) && Vec(t.vx, t.vy).Norm2() <= 420.0 * 420.0 &&
      0.0 <= t.x < width && 0.0 <= t.y < height
  {
    UpdateShipInField(s, keys, dt, width, height, env);
  }

  /** createAsteroid and splitAsteroid: the fragments of a rock are scored by
      their own size, and each is worth at least as much as the rock. */
  lemma SplitAgrees(a: Asteroid, env: Env, pos: nat)
    requires env.Valid() && Scored(a)
    ensures var f := SplitAsteroid(a, env, pos).value;
      forall k :: 0 <= k < |f| ==> Scored(f[k]) && a.scoreValue <= f[k].scoreValue
  {
    var f := SplitAsteroid(a, env, pos).value;
    forall k | 0 <= k < |f| ensures a.scoreValue <= f[k].scoreValue {
      ScoreValueAntitone(f[k].radius, a.radius);
    }
  }

  /** The bundled checkCollisions: a bullet is reported exactly when it is live
      and overlaps a live rock, each with its first such rock, and the crash
      flag is raised only while the ship is not invulnerable, and ignores
      whether the rock is dead. */
  lemma CollisionsAgree(shots: seq<Bullet>, rocks: seq<Asteroid>, ship: Ship)
    ensures var r := CheckCollisions(shots, rocks, ship);
      (forall h :: 0 <= h < |r.hits| ==> FirstMatch(shots, rocks, r.hits[h])) &&
      (forall b :: 0 <= b < |shots| ==> (Reported(r.hits, b) <==> Struck(shots, rocks, b))) &&
      (r.shipCrash <==> ship.invuln <= 0.0 && exists k :: 0 <= k < |rocks| && ShipTouches(ship, rocks[k]))
  {
    CheckCollisionsMeaning(shots, rocks, ship);
  }

  /** The bundled spawnWave retries exactly as the module one does: with the
      ship at the centre, it never finishes in a window of at most 200 by 200,
      and always finishes in one of at least 300 by 300 given one candidate per
      rock. */
  lemma WaveAgrees(rocks: seq<Asteroid>, wave: int, width: real, height: real, env: Env, pos: nat, fuel: nat)
    requires env.Valid() && 0.0 <= width && 0.0 <= height && -2 <= wave
    ensures width <= 200.0 && height <= 200.0 ==>
      SpawnWave(rocks, wave, width / 2.0, height / 2.0, width, height, env, pos, fuel).None?
    ensures 300.0 <= width && 300.0 <= height && WaveSize(wave) <= fuel ==>
      SpawnWave(rocks, wave, width / 2.0, height / 2.0, width, height, env, pos, fuel).Some?
  {
    if width <= 200.0 && height <= 200.0 {
      SmallFieldNeverSpawns(rocks, WaveSize(wave), width, height, env, pos, fuel);
    }
    if 300.0 <= width && 300.0 <= height && WaveSize(wave) <= fuel {
      LargeFieldSpawns(rocks, wave, width, height, env, pos, fuel);
    }
  }

  /** The bundled resetGame and startPlaying: a game started from the start or
      game-over screen is a fresh one that keeps the invariant. */
  lemma ResetAgrees(g: Game, vp: Viewport, env: Env, pos: nat, fuel: nat)
    requires env.Valid() && vp.Valid()
    requires g.scene == StartScreen || g.scene == GameOver
    ensures var r := StartPlaying(g, vp, env, pos, fuel);
      r.Some? ==>
        Inv(r.value.game) && r.value.game.scene == Playing &&
        r.value.game.score == 0 && r.value.game.lives == 3 && |r.value.game.asteroids| == 4
  {
    StartPlayingKeepsInv(g, vp, env, pos, fuel);
  }

  /** The bundled loop and update: every frame, in every scene, keeps the invariant, and a
      playing tick that does not end the game leaves only live bullets and
      intact rocks. */
  lemma LoopAgrees(g: Game, keys: Keys, now: real, last: real,
                   vp: Viewport, env: Env, pos: nat, fuel: nat)
    requires env.Valid() && vp.Valid() && Inv(g)
    ensures var r := Frame(g, keys, now, last, vp, env, pos, fuel);
      r.Some? ==> Inv(r.value.out.game)
    ensures var r := Update(g, keys, FrameDt(now, last), vp, env, pos, fuel);
      g.scene == Playing && r.Some? && r.value.game.scene != GameOver ==>
        (forall i :: 0 <= i < |r.value.game.bullets| ==> Live(r.value.game.bullets[i])) &&
        (forall j :: 0 <= j < |r.value.game.asteroids| ==> !r.value.game.asteroids[j].dead)
  {
    FrameKeepsInv(g, keys, now, last, vp, env, pos, fuel);
    if g.scene == Playing {
      UpdateOutcome(g, keys, FrameDt(now, last), vp, env, pos, fuel);
    }
  }
}
