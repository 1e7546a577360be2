/** The session of main.js: the game record, reset and start, the scene
    machine driven by the keyboard, and one simulation tick.

    The browser side is not modelled: drawing, the HUD, the overlay, audio and
    localStorage become `Event`s in the order the code would trigger them, and
    the window size is a `Viewport` parameter. createAudio always returns an
    object, so every `if (audio)` test in main.js passes: resuming, the sounds
    and the mute toggle are always requested. */
module Session {
  import opened GameMath
  import opened Wrappers
  import opened Asteroids
  import opened Bullets
  import opened Ships
  import opened Particles
  import opened Collisions
  import opened Waves
  import opened Input

  datatype Scene = StartScreen | Playing | Paused | GameOver

  datatype Game = Game(
    scene: Scene,
    score: int,
    hiScore: int,
    wave: int,
    lives: int,
    bullets: seq<Bullet>,
    asteroids: seq<Asteroid>,
    particles: seq<Particle>,
    ship: Ship)

  /** The browser window, `window.innerWidth` and `window.innerHeight`. */
  datatype Viewport = Viewport(innerWidth: real, innerHeight: real) {
    predicate Valid() {
      0.0 <= innerWidth && 0.0 <= innerHeight
    }

    /** resize(): the play field is the window size rounded down. */
    function Width(): (w: real)
      ensures Valid() ==> 0.0 <= w <= innerWidth < w + 1.0
    {
      innerWidth.Floor as real
    }

    function Height(): (h: real)
      ensures Valid() ==> 0.0 <= h <= innerHeight < h + 1.0
    {
      innerHeight.Floor as real
    }
  }

  /** What the code does outside the game record: sounds, saving the high score,
      resuming audio and toggling mute. */
  datatype Event = ShootSound | ExplosionSound | HiScoreSaved(hi: int) | AudioResumed | MuteToggled

  /** A game record after some step, the events it triggered, and the cursor of
      the next unused random draw. */
  datatype Outcome = Outcome(game: Game, events: seq<Event>, pos: nat)

  function IMax(a: int, b: int): int { if a >= b then a else b }

  /** The facts every reachable game record keeps. */
  predicate Inv(g: Game) {
    1 <= g.wave && 0 <= g.score && -1 <= g.lives <= 3 &&
    (g.scene != GameOver ==> 0 <= g.lives) &&
    Tuned(g.ship) &&
    forall j :: 0 <= j < |g.asteroids| ==> Scored(g.asteroids[j])
  }

  /** `Number(localStorage.getItem('asteroids.hi')) || 0`: the stored value, or 0
      when nothing usable is stored. */
  function LoadedHi(stored: Option<int>): (hi: int)
    ensures stored.None? ==> hi == 0
    ensures stored.Some? ==> hi == stored.value
  {
    match stored
    case None => 0
    case Some(n) => n
  }

  /** The game record when the page loads: the start screen, an empty field and
      a ship in the middle of it. */
  function InitialGame(vp: Viewport, stored: Option<int>): (g: Game)
    ensures Inv(g)
    ensures g.scene == StartScreen && g.score == 0 && g.hiScore == LoadedHi(stored)
    ensures g.wave == 1 && g.lives == 3
    ensures g.bullets == [] && g.asteroids == [] && g.particles == []
  {
    Game(StartScreen, 0, LoadedHi(stored), 1, 3, [], [], [],
      CreateShip(vp.Width() / 2.0, vp.Height() / 2.0))
  }

  /** The ship of a new game: created at the middle of the field, then moved by
      respawnShip to the middle of the window. */
  function FreshShip(vp: Viewport): (s: Ship)
    ensures Tuned(s) && s.x == vp.innerWidth / 2.0 && s.y == vp.innerHeight / 2.0
    ensures s.vx == 0.0 && s.vy == 0.0 && s.angle == SpawnAngle
    ensures s.invuln == SpawnInvuln && s.canShoot
  {
    RespawnShip(CreateShip(vp.Width() / 2.0, vp.Height() / 2.0), vp.innerWidth / 2.0, vp.innerHeight / 2.0)
  }

  /** resetGame: score 0, wave 1, three lives, no bullets or particles, a fresh
      ship, and the first wave of four rocks. Scene and high score are kept. */
  function ResetGame(g: Game, vp: Viewport, env: Env, pos: nat, fuel: nat): (r: Option<Drawn<Game>>)
    requires env.Valid() && vp.Valid()
    ensures r.Some? ==>
      var n := r.value.value;
      n.scene == g.scene && n.hiScore == g.hiScore &&
      n.score == 0 && n.wave == 1 && n.lives == 3 &&
      n.bullets == [] && n.particles == [] && n.ship == FreshShip(vp) &&
      |n.asteroids| == 4 &&
      forall j :: 0 <= j < |n.asteroids| ==>
        Spawned(n.asteroids[j], n.ship.x, n.ship.y, vp.Width(), vp.Height())
  {
    var ship := FreshShip(vp);
    match SpawnWave([], 1, ship.x, ship.y, vp.Width(), vp.Height(), env, pos, fuel)
    case None => None
    case Some(d) =>
      Some(Drawn(g.(score := 0, wave := 1, lives := 3, bullets := [], asteroids := d.value,
                    particles := [], ship := ship), d.pos))
  }

  /** startPlaying: resumes audio; from the start screen or after game over it
      resets first; the scene always ends as playing. */
  function StartPlaying(g: Game, vp: Viewport, env: Env, pos: nat, fuel: nat): (r: Option<Outcome>)
    requires env.Valid() && vp.Valid()
    ensures r.Some? ==> r.value.game.scene == Playing && r.value.events == [AudioResumed]
    ensures g.scene == Playing || g.scene == Paused ==>
      r == Some(Outcome(g.(scene := Playing), [AudioResumed], pos))
    ensures (g.scene == StartScreen || g.scene == GameOver) && r.Some? ==>
      var n := r.value.game;
      n.score == 0 && n.wave == 1 && n.lives == 3 && n.hiScore == g.hiScore &&
      n.bullets == [] && n.particles == [] && |n.asteroids| == 4 && n.ship == FreshShip(vp) &&
      forall j :: 0 <= j < |n.asteroids| ==>
        Spawned(n.asteroids[j], n.ship.x, n.ship.y, vp.Width(), vp.Height())
  {
    if g.scene == StartScreen || g.scene == GameOver then
      match ResetGame(g, vp, env, pos, fuel)
      case None => None
      case Some(d) => Some(Outcome(d.value.(scene := Playing), [AudioResumed], d.pos))
    else
      Some(Outcome(g.(scene := Playing), [AudioResumed], pos))
  }

  /** In a window whose field is at least 302 by 302, the ship at the window's
      centre is at least 150 from every point of the field's border. */
  lemma WindowCentreClear(vp: Viewport)
    requires vp.Valid() && 302.0 <= vp.Width() && 302.0 <= vp.Height()
    ensures EdgesClear(vp.innerWidth / 2.0, vp.innerHeight / 2.0, vp.Width(), vp.Height())
  {
    InnerShipClear(vp.innerWidth / 2.0, vp.innerHeight / 2.0, vp.Width(), vp.Height());
  }

  /** In a window whose field is at least 302 by 302, a reset places its four
      rocks when the fuel covers one candidate per rock, so starting a game
      from any screen succeeds. */
  lemma LargeWindowStarts(g: Game, vp: Viewport, env: Env, pos: nat, fuel: nat)
    requires env.Valid() && vp.Valid()
    requires 302.0 <= vp.Width() && 302.0 <= vp.Height() && 4 <= fuel
    ensures ResetGame(g, vp, env, pos, fuel).Some?
    ensures StartPlaying(g, vp, env, pos, fuel).Some?
  {
    var ship := FreshShip(vp);
    WindowCentreClear(vp);
    ClearEdgesAccept(ship.x, ship.y, vp.Width(), vp.Height(), env, pos);
    AcceptedSpawn([], 4, ship.x, ship.y, vp.Width(), vp.Height(), env, pos, fuel);
    assert SpawnWave([], 1, ship.x, ship.y, vp.Width(), vp.Height(), env, pos, fuel) ==
      SpawnFrom([], 4, ship.x, ship.y, vp.Width(), vp.Height(), env, pos, fuel);
  }

  /** In a window of at most 200 by 200, every point of the field's border is
      within 150 of the ship at the window's centre: the reset never places its
      rocks, and the JavaScript loop would never end. */
  lemma SmallWindowNeverResets(g: Game, vp: Viewport, env: Env, pos: nat, fuel: nat)
    requires env.Valid() && vp.Valid()
    requires vp.innerWidth <= 200.0 && vp.innerHeight <= 200.0
    ensures ResetGame(g, vp, env, pos, fuel).None?
  {
    var sx, sy := vp.innerWidth / 2.0, vp.innerHeight / 2.0;
    forall x, y | OnEdge(x, y, vp.Width(), vp.Height())
      ensures TooClose(x, y, sx, sy)
    {
      WithinReach(x, y, sx, sy);
    }
    BlockedNeverSpawns([], 4, sx, sy, vp.Width(), vp.Height(), env, pos, fuel);
    assert SpawnWave([], 1, sx, sy, vp.Width(), vp.Height(), env, pos, fuel) ==
      SpawnFrom([], 4, sx, sy, vp.Width(), vp.Height(), env, pos, fuel);
  }

  /** A click on the overlay starts a game only from the start or game-over screen. */
  function OverlayClick(g: Game, vp: Viewport, env: Env, pos: nat, fuel: nat): (r: Option<Outcome>)
    requires env.Valid() && vp.Valid()
    ensures g.scene == Playing || g.scene == Paused ==> r == Some(Outcome(g, [], pos))
    ensures g.scene == StartScreen || g.scene == GameOver ==> r == StartPlaying(g, vp, env, pos, fuel)
  {
    if g.scene == StartScreen || g.scene == GameOver then StartPlaying(g, vp, env, pos, fuel)
    else Some(Outcome(g, [], pos))
  }

  /** The thrust flame, added behind the ship while thrust is held: it starts
      `radius + 4` behind the ship's centre, and lives 0.25 to 0.5 seconds. */
  function ThrustFlame(s: Ship, env: Env, pos: nat): (p: Particle)
    requires env.Valid()
    ensures p.tint == Flame && p.ttl == p.life && 0.25 <= p.life < 0.5 && 2.0 <= p.size < 4.0
    ensures p.x + env.cos(s.angle) * (s.radius + 4.0) == s.x
    ensures p.y + env.sin(s.angle) * (s.radius + 4.0) == s.y
  {
    var c := env.cos(s.angle);
    var n := env.sin(s.angle);
    var life := 0.25 + env.random(pos + 2) * 0.25;
    Particle(
      s.x - c * (s.radius + 4.0), s.y - n * (s.radius + 4.0),
      (env.random(pos) - 0.5) * 40.0 - c * 60.0,
      (env.random(pos + 1) - 0.5) * 40.0 - n * 60.0,
      life, life,
      2.0 + env.random(pos + 3) * 2.0,
      Flame)
  }

  /** The keys updateShip reads. */
  function ControlsOf(keys: Keys): (c: Controls)
    ensures c.left <==> Left in keys.down
    ensures c.right <==> Right in keys.down
    ensures c.thrust <==> Thrust in keys.down
  {
    Controls(IsDown(keys, Left), IsDown(keys, Right), IsDown(keys, Thrust))
  }

  /** The first part of update: the ship turns, thrusts and moves (the thrust
      callback adds one flame particle, drawn at the ship's position before it
      moves, with its new heading); then, if it can shoot and shoot is held, one
      bullet is appended and the cooldown restarts. */
  function SteerAndFire(g: Game, keys: Keys, dt: real, vp: Viewport, env: Env, pos: nat): (o: Outcome)
    requires env.Valid() && vp.Valid() && 0.0 <= g.ship.maxSpeed
    ensures var moved := UpdateShip(g.ship, ControlsOf(keys), dt, vp.Width(), vp.Height(), env).ship;
      var fired := moved.canShoot && Shoot in keys.down;
      SameCounters(o.game, g) && o.game.asteroids == g.asteroids &&
      SameTuning(o.game.ship, g.ship) &&
      (fired ==>
        o.game.bullets == g.bullets + [CreateBullet(moved, env)] &&
        o.game.ship == moved.(cooldown := moved.fireDelay) &&
        o.events == [ShootSound]) &&
      (!fired ==> o.game.bullets == g.bullets && o.game.ship == moved && o.events == [])
    ensures Thrust in keys.down ==>
      |o.game.particles| == |g.particles| + 1 && o.game.particles[..|g.particles|] == g.particles &&
      o.game.particles[|g.particles|].tint == Flame && o.pos == pos + 4
    ensures Thrust !in keys.down ==> o.game.particles == g.particles && o.pos == pos
  {
    var step := UpdateShip(g.ship, ControlsOf(keys), dt, vp.Width(), vp.Height(), env);
    var flame := ThrustFlame(g.ship.(angle := step.ship.angle), env, pos);
    var parts :=
      if step.thrusting then Add(g.particles, flame.x, flame.y, flame.vx, flame.vy, flame.life, flame.size, Flame)
      else g.particles;
    var next := if step.thrusting then pos + 4 else pos;
    var moved := step.ship;
    if moved.canShoot && IsDown(keys, Shoot) then
      Outcome(g.(bullets := g.bullets + [CreateBullet(moved, env)], particles := parts, ship := DidShoot(moved)),
        [ShootSound], next)
    else
      Outcome(g.(particles := parts, ship := moved), [], next)
  }

  /** The collision bookkeeping of update while the hits are resolved. */
  datatype Board = Board(
    score: int,
    hiScore: int,
    bullets: seq<Bullet>,
    asteroids: seq<Asteroid>,
    particles: seq<Particle>,
    events: seq<Event>,
    pos: nat)

  /** Equal up to the dead flag. */
  predicate SameRock(a: Asteroid, c: Asteroid) {
    a.(dead := false) == c.(dead := false)
  }

  predicate SameShot(a: Bullet, c: Bullet) {
    a.(dead := false) == c.(dead := false)
  }

  /** One reported hit. A hit whose asteroid index is out of range is skipped.
      Otherwise the bullet is marked dead, the rock splits (its fragments are drawn
      first), its score is added, a new high score is saved, the explosion is
      added, and the rock is marked dead with its fragments appended at the end.
      Whether the rock was already dead is not looked at. */
  function ResolveOne(b: Board, hit: Hit, env: Env): (r: Board)
    requires env.Valid()
    ensures |r.bullets| == |b.bullets|
    ensures forall i :: 0 <= i < |b.bullets| ==> SameShot(r.bullets[i], b.bullets[i])
    ensures |b.asteroids| <= |r.asteroids|
    ensures forall j :: 0 <= j < |b.asteroids| ==> SameRock(r.asteroids[j], b.asteroids[j])
    ensures forall j :: |b.asteroids| <= j < |r.asteroids| ==> !r.asteroids[j].dead && Scored(r.asteroids[j])
    ensures |b.particles| <= |r.particles| && r.particles[..|b.particles|] == b.particles
    ensures hit.asteroid >= |b.asteroids| ==> r == b
    ensures hit.asteroid < |b.asteroids| ==>
      var a := b.asteroids[hit.asteroid];
      r.score == b.score + a.scoreValue && r.hiScore == IMax(b.hiScore, r.score) &&
      (forall i :: 0 <= i < |b.bullets| ==> (r.bullets[i].dead <==> b.bullets[i].dead || i == hit.bullet)) &&
      (forall j :: 0 <= j < |b.asteroids| ==> (r.asteroids[j].dead <==> b.asteroids[j].dead || j == hit.asteroid)) &&
      |r.asteroids| <= |b.asteroids| + 2 &&
      (forall j :: |b.asteroids| <= j < |r.asteroids| ==> r.asteroids[j].radius < a.radius)
  {
    if hit.asteroid >= |b.asteroids| then b
    else
      var a := b.asteroids[hit.asteroid];
      var shots :=
        if hit.bullet < |b.bullets| then b.bullets[hit.bullet := b.bullets[hit.bullet].(dead := true)]
        else b.bullets;
      var fragments := SplitAsteroid(a, env, b.pos);
      var score := b.score + a.scoreValue;
      var saved := score > b.hiScore;
      var boom := Explode(b.particles, a.x, a.y, a.radius, env, fragments.pos);
      Board(
        score,
        if saved then score else b.hiScore,
        shots,
        b.asteroids[hit.asteroid := a.(dead := true)] + fragments.value,
        boom.value,
        b.events + (if saved then [HiScoreSaved(score)] else []) + [ExplosionSound],
        boom.pos)
  }

  /** The rocks a hit appends are exactly the fragments `split` returns for the
      struck rock, and the explosion adds one burst sized by its radius. */
  lemma ResolveOneSplits(b: Board, hit: Hit, env: Env)
    requires env.Valid() && hit.asteroid < |b.asteroids|
    ensures var r := ResolveOne(b, hit, env);
      var a := b.asteroids[hit.asteroid];
      r.asteroids[|b.asteroids|..] == SplitAsteroid(a, env, b.pos).value &&
      (0.0 <= a.radius ==> |r.particles| == |b.particles| + BlastSize(a.radius))
  {
    var a := b.asteroids[hit.asteroid];
    var fragments := SplitAsteroid(a, env, b.pos);
    var rocks := b.asteroids[hit.asteroid := a.(dead := true)];
    assert (rocks + fragments.value)[|b.asteroids|..] == fragments.value;
  }

  /** A hit on a rock in range saves the high score when the new score beats
      it, and then plays the explosion; a skipped hit emits nothing. */
  lemma ResolveOneEvents(b: Board, hit: Hit, env: Env)
    requires env.Valid() && hit.asteroid < |b.asteroids|
    ensures var r := ResolveOne(b, hit, env);
      r.events == b.events + (if r.score > b.hiScore then [HiScoreSaved(r.score)] else []) + [ExplosionSound]
  {
  }

  /** The position of the last HiScoreSaved among `events`, or -1 when there is none. */
  function LastSaveIndex(events: seq<Event>): (i: int)
    ensures -1 <= i < |events|
    ensures 0 <= i ==> events[i].HiScoreSaved?
    ensures forall k :: i < k < |events| ==> !events[k].HiScoreSaved?
    decreases |events|
  {
    if events == [] then -1
    else if events[|events| - 1].HiScoreSaved? then |events| - 1
    else
      var n := |events| - 1;
      assert forall k :: 0 <= k < n ==> events[..n][k] == events[k];
      LastSaveIndex(events[..n])
  }

  /** The three properties above single out one index. */
  lemma LastSaveUnique(events: seq<Event>, i: int)
    requires -1 <= i < |events|
    requires 0 <= i ==> events[i].HiScoreSaved?
    requires forall k :: i < k < |events| ==> !events[k].HiScoreSaved?
    ensures i == LastSaveIndex(events)
  {
  }

  /** The value of the last HiScoreSaved among `events`, if there is one. */
  function LastSaved(events: seq<Event>): Option<int> {
    var i := LastSaveIndex(events);
    if i < 0 then None else Some(events[i].hi)
  }

  /** The last save of a concatenation is the last save of its second part, or
      of the first part when the second saves nothing. */
  lemma LastSavedAppend(a: seq<Event>, b: seq<Event>)
    ensures LastSaved(a + b) == if LastSaved(b).Some? then LastSaved(b) else LastSaved(a)
  {
    var ia, ib := LastSaveIndex(a), LastSaveIndex(b);
    var i := if 0 <= ib then |a| + ib else ia;
    assert forall k :: |a| <= k < |a + b| ==> (a + b)[k] == b[k - |a|];
    assert forall k :: 0 <= k < |a| ==> (a + b)[k] == a[k];
    LastSaveUnique(a + b, i);
  }

  /** Events `e1` extend `e0`, and among the new ones the last save is the new
      high score `h1` exactly when it beat `h0`. */
  ghost predicate SavesFollow(e0: seq<Event>, e1: seq<Event>, h0: int, h1: int) {
    h0 <= h1 && |e0| <= |e1| && e1[..|e0|] == e0 &&
    LastSaved(e1[|e0|..]) == if h1 > h0 then Some(h1) else None
  }

  /** One hit keeps the saves in step with the high score. */
  lemma ResolveOneSaves(b: Board, hit: Hit, env: Env)
    requires env.Valid()
    ensures var r := ResolveOne(b, hit, env);
      SavesFollow(b.events, r.events, b.hiScore, r.hiScore)
  {
    var r := ResolveOne(b, hit, env);
    if hit.asteroid < |b.asteroids| {
      ResolveOneEvents(b, hit, env);
      var saves := if r.score > b.hiScore then [HiScoreSaved(r.score)] else [];
      assert r.events[|b.events|..] == saves + [ExplosionSound];
      LastSavedAppend(saves, [ExplosionSound]);
    } else {
      assert r.events[|b.events|..] == [];
    }
  }

  /** Two stretches of events that each keep the saves in step chain into one. */
  lemma SavesChain(e0: seq<Event>, e1: seq<Event>, e2: seq<Event>, h0: int, h1: int, h2: int)
    requires SavesFollow(e0, e1, h0, h1) && SavesFollow(e1, e2, h1, h2)
    ensures SavesFollow(e0, e2, h0, h2)
  {
    assert e2[..|e0|] == e2[..|e1|][..|e0|];
    assert e2[|e0|..] == e1[|e0|..] + e2[|e1|..];
    LastSavedAppend(e1[|e0|..], e2[|e1|..]);
  }

  /** Over a tick's hits the events only grow, and among the new ones a
      HiScoreSaved appears exactly when the high score rose; the last one
      carries the final high score. */
  lemma {:induction false} ResolveHitsSaves(b: Board, hits: seq<Hit>, env: Env)
    requires env.Valid()
    ensures var r := ResolveHits(b, hits, env);
      b.hiScore <= r.hiScore && |b.events| <= |r.events| && r.events[..|b.events|] == b.events &&
      LastSaved(r.events[|b.events|..]) == if r.hiScore > b.hiScore then Some(r.hiScore) else None
    decreases |hits|
  {
    var r := ResolveHits(b, hits, env);
    if hits == [] {
      assert r.events[|b.events|..] == [];
    } else {
      var b1 := ResolveOne(b, hits[0], env);
      assert r == ResolveHits(b1, hits[1..], env);
      ResolveOneSaves(b, hits[0], env);
      ResolveHitsSaves(b1, hits[1..], env);
      SavesChain(b.events, b1.events, r.events, b.hiScore, b1.hiScore, r.hiScore);
    }
  }

  /** The bullets and the rocks named by a list of hits. */
  function HitBullets(hits: seq<Hit>): set<nat> {
    if hits == [] then {} else {hits[0].bullet} + HitBullets(hits[1..])
  }

  function HitRocks(hits: seq<Hit>): set<nat> {
    if hits == [] then {} else {hits[0].asteroid} + HitRocks(hits[1..])
  }

  /** The points a list of hits is worth against these rocks, one scoreValue per
      hit, counting a rock again each time it is hit. */
  function Gain(rocks: seq<Asteroid>, hits: seq<Hit>): int {
    if hits == [] then 0
    else (if hits[0].asteroid < |rocks| then rocks[hits[0].asteroid].scoreValue else 0) + Gain(rocks, hits[1..])
  }

  predicate InRange(hits: seq<Hit>, bullets: nat, rocks: nat) {
    forall h :: 0 <= h < |hits| ==> hits[h].bullet < bullets && hits[h].asteroid < rocks
  }

  /** The loop over bulletHits. Fragments only ever go at the end, so an index
      below the original length keeps naming the same rock (up to its dead flag)
      all through the loop; the bullets are neither added nor removed. */
  function ResolveHits(b: Board, hits: seq<Hit>, env: Env): (r: Board)
    requires env.Valid()
    ensures |r.bullets| == |b.bullets|
    ensures forall i :: 0 <= i < |b.bullets| ==> SameShot(r.bullets[i], b.bullets[i])
    ensures |b.asteroids| <= |r.asteroids|
    ensures forall j :: 0 <= j < |b.asteroids| ==> SameRock(r.asteroids[j], b.asteroids[j])
    ensures forall j :: |b.asteroids| <= j < |r.asteroids| ==> Scored(r.asteroids[j])
    ensures |b.particles| <= |r.particles| && r.particles[..|b.particles|] == b.particles
    decreases |hits|
  {
    if hits == [] then b
    else
      var b1 := ResolveOne(b, hits[0], env);
      var r := ResolveHits(b1, hits[1..], env);
      assert r.particles[..|b.particles|] == r.particles[..|b1.particles|][..|b.particles|];
      r
  }

  /** The hits after the first still lie in range once the first is resolved. */
  lemma TailInRange(b: Board, hits: seq<Hit>, env: Env)
    requires env.Valid() && hits != []
    requires InRange(hits, |b.bullets|, |b.asteroids|)
    ensures var b1 := ResolveOne(b, hits[0], env);
      InRange(hits[1..], |b1.bullets|, |b1.asteroids|) && InRange(hits[1..], |b.bullets|, |b.asteroids|)
  {
    var tail := hits[1..];
    forall h | 0 <= h < |tail|
      ensures tail[h].asteroid < |b.asteroids| && tail[h].bullet < |b.bullets|
    {
      assert tail[h] == hits[h + 1];
    }
  }

  /** Resolution marks dead exactly the bullets and rocks the hits name: a rock
      below the original length is dead afterwards iff it was dead or some hit
      names it, and likewise for the bullets. */
  lemma {:induction false} ResolveHitsMarks(b: Board, hits: seq<Hit>, env: Env)
    requires env.Valid()
    requires InRange(hits, |b.bullets|, |b.asteroids|)
    ensures var r := ResolveHits(b, hits, env);
      (forall i :: 0 <= i < |b.bullets| ==> (r.bullets[i].dead <==> b.bullets[i].dead || i in HitBullets(hits))) &&
      (forall j :: 0 <= j < |b.asteroids| ==> (r.asteroids[j].dead <==> b.asteroids[j].dead || j in HitRocks(hits))) &&
      (forall j :: |b.asteroids| <= j < |r.asteroids| ==> !r.asteroids[j].dead)
    decreases |hits|
  {
    if hits != [] {
      var b1 := ResolveOne(b, hits[0], env);
      TailInRange(b, hits, env);
      ResolveHitsMarks(b1, hits[1..], env);
      HitRocksBelow(hits[1..], |b.bullets|, |b.asteroids|);
    }
  }

  lemma {:induction false} HitRocksBelow(hits: seq<Hit>, bullets: nat, rocks: nat)
    requires InRange(hits, bullets, rocks)
    ensures forall j :: j in HitRocks(hits) ==> j < rocks
    decreases |hits|
  {
    if hits != [] {
      assert InRange(hits[1..], bullets, rocks) by {
        forall h | 0 <= h < |hits[1..]| ensures hits[1..][h].asteroid < rocks && hits[1..][h].bullet < bullets {
          assert hits[1..][h] == hits[h + 1];
        }
      }
      HitRocksBelow(hits[1..], bullets, rocks);
    }
  }

  /** The score rises by the value of every hit, a rock hit twice counting twice. */
  lemma {:induction false} ResolveHitsScore(b: Board, hits: seq<Hit>, env: Env)
    requires env.Valid()
    requires InRange(hits, |b.bullets|, |b.asteroids|)
    ensures ResolveHits(b, hits, env).score == b.score + Gain(b.asteroids, hits)
    decreases |hits|
  {
    if hits != [] {
      var b1 := ResolveOne(b, hits[0], env);
      TailInRange(b, hits, env);
      ResolveHitsScore(b1, hits[1..], env);
      GainKept(b.asteroids, b1.asteroids, hits[1..]);
    }
  }

  /** Gain only reads the score values of rocks below the original length. */
  lemma {:induction false} GainKept(rocks: seq<Asteroid>, later: seq<Asteroid>, hits: seq<Hit>)
    requires |rocks| <= |later|
    requires forall j :: 0 <= j < |rocks| ==> later[j].scoreValue == rocks[j].scoreValue
    ensures (forall h :: 0 <= h < |hits| ==> hits[h].asteroid < |rocks|) ==> Gain(later, hits) == Gain(rocks, hits)
    decreases |hits|
  {
    if hits != [] {
      GainKept(rocks, later, hits[1..]);
      if forall h :: 0 <= h < |hits| ==> hits[h].asteroid < |rocks| {
        assert forall h :: 0 <= h < |hits[1..]| ==> hits[1..][h].asteroid < |rocks| by {
          forall h | 0 <= h < |hits[1..]| ensures hits[1..][h].asteroid < |rocks| {
            assert hits[1..][h] == hits[h + 1];
          }
        }
      }
    }
  }

  /** Each hit on a scored rock is worth at least 20 points, so the score never
      goes down while hits are resolved. */
  lemma {:induction false} GainAtLeast(rocks: seq<Asteroid>, hits: seq<Hit>)
    requires forall j :: 0 <= j < |rocks| ==> Scored(rocks[j])
    requires forall h :: 0 <= h < |hits| ==> hits[h].asteroid < |rocks|
    ensures Gain(rocks, hits) >= 20 * |hits|
    decreases |hits|
  {
    if hits != [] {
      GainAtLeast(rocks, hits[1..]);
    }
  }

  /** After the hits of one tick, the high score is the larger of the old high
      score and the new score; with no hit nothing changes. */
  lemma {:induction false} HiScoreFollowsScore(b: Board, hits: seq<Hit>, env: Env)
    requires env.Valid()
    requires forall j :: 0 <= j < |b.asteroids| ==> Scored(b.asteroids[j])
    requires InRange(hits, |b.bullets|, |b.asteroids|)
    ensures hits == [] ==> ResolveHits(b, hits, env) == b
    ensures hits != [] ==>
      var r := ResolveHits(b, hits, env);
      r.hiScore == IMax(b.hiScore, r.score) && r.score >= b.score + 20 * |hits|
    decreases |hits|
  {
    GainAtLeast(b.asteroids, hits);
    if hits != [] {
      var b1 := ResolveOne(b, hits[0], env);
      var tail := hits[1..];
      assert InRange(tail, |b1.bullets|, |b1.asteroids|) by {
        forall h | 0 <= h < |tail| ensures tail[h].asteroid < |b1.asteroids| && tail[h].bullet < |b1.bullets| {
          assert tail[h] == hits[h + 1];
        }
      }
      forall j | 0 <= j < |b1.asteroids| ensures Scored(b1.asteroids[j]) {
      }
      HiScoreFollowsScore(b1, tail, env);
    }
  }

  /** Two bullets reported on the same rock of radius above 18: the rock is
      scored twice and split twice, so four fragments follow it (of 0.6 and 0.5
      times its radius, twice over), and two explosions are added. */
  lemma RockHitTwice(b: Board, i1: nat, i2: nat, j: nat, env: Env)
    requires env.Valid()
    requires j < |b.asteroids| && 18.0 < b.asteroids[j].radius
    ensures var r := ResolveHits(b, [Hit(i1, j), Hit(i2, j)], env);
      var a := b.asteroids[j];
      var n := |b.asteroids|;
      r.score == b.score + 2 * a.scoreValue && r.asteroids[j].dead &&
      |r.asteroids| == n + 4 &&
      r.asteroids[n].radius == 0.6 * a.radius && r.asteroids[n + 1].radius == 0.5 * a.radius &&
      r.asteroids[n + 2].radius == 0.6 * a.radius && r.asteroids[n + 3].radius == 0.5 * a.radius &&
      |r.particles| == |b.particles| + 2 * BlastSize(a.radius)
  {
    var a := b.asteroids[j];
    var n := |b.asteroids|;
    var hits := [Hit(i1, j), Hit(i2, j)];
    var b1 := ResolveOne(b, hits[0], env);
    SplitHit(b, hits[0], env);
    assert SameRock(b1.asteroids[j], a);
    SameRockKeeps(b1.asteroids[j], a);
    var b2 := ResolveOne(b1, hits[1], env);
    SplitHit(b1, hits[1], env);
    assert SameRock(b2.asteroids[n], b1.asteroids[n]) && SameRock(b2.asteroids[n + 1], b1.asteroids[n + 1]);
    SameRockKeeps(b2.asteroids[n], b1.asteroids[n]);
    SameRockKeeps(b2.asteroids[n + 1], b1.asteroids[n + 1]);
    assert hits[1..] == [Hit(i2, j)];
    assert [Hit(i2, j)][1..] == [];
    assert ResolveHits(b1, [Hit(i2, j)], env) == b2;
    assert ResolveHits(b, hits, env) == ResolveHits(b1, [Hit(i2, j)], env);
  }

  /** One hit on a rock larger than 18: the score rises by its value, it dies,
      and its two fragments are appended at 0.6 and 0.5 of its radius. */
  lemma SplitHit(b: Board, hit: Hit, env: Env)
    requires env.Valid()
    requires hit.asteroid < |b.asteroids| && 18.0 < b.asteroids[hit.asteroid].radius
    ensures var r := ResolveOne(b, hit, env);
      var a := b.asteroids[hit.asteroid];
      var n := |b.asteroids|;
      r.score == b.score + a.scoreValue && r.asteroids[hit.asteroid].dead &&
      |r.asteroids| == n + 2 &&
      r.asteroids[n].radius == 0.6 * a.radius && r.asteroids[n + 1].radius == 0.5 * a.radius &&
      |r.particles| == |b.particles| + BlastSize(a.radius)
  {
    var r := ResolveOne(b, hit, env);
    var a := b.asteroids[hit.asteroid];
    var n := |b.asteroids|;
    ResolveOneSplits(b, hit, env);
    var parts := SplitAsteroid(a, env, b.pos).value;
    assert r.asteroids[n..] == parts;
    assert r.asteroids[n] == parts[0] && r.asteroids[n + 1] == parts[1];
  }

  /** Rocks that agree up to the dead flag have the same radius and value. */
  lemma SameRockKeeps(a: Asteroid, c: Asteroid)
    requires SameRock(a, c)
    ensures a.radius == c.radius && a.scoreValue == c.scoreValue
  {
    assert a.(dead := false).radius == c.(dead := false).radius;
    assert a.(dead := false).scoreValue == c.(dead := false).scoreValue;
  }

  /** The scene and the counters of two records agree. */
  predicate SameCounters(a: Game, b: Game) {
    a.scene == b.scene && a.score == b.score && a.hiScore == b.hiScore &&
    a.wave == b.wave && a.lives == b.lives
  }

  predicate AllScored(rocks: seq<Asteroid>) {
    forall j :: 0 <= j < |rocks| ==> Scored(rocks[j])
  }

  /** Every rock moves; every particle moves and the expired ones go; every
      bullet ages and moves. Rocks and bullets keep their number and order. */
  function Move(o: Outcome, dt: real, vp: Viewport): (r: Outcome)
    ensures SameCounters(r.game, o.game) && r.game.ship == o.game.ship
    ensures r.events == o.events && r.pos == o.pos
    ensures |r.game.asteroids| == |o.game.asteroids|
    ensures forall j :: 0 <= j < |r.game.asteroids| ==>
      r.game.asteroids[j].scoreValue == o.game.asteroids[j].scoreValue &&
      r.game.asteroids[j].radius == o.game.asteroids[j].radius &&
      r.game.asteroids[j].dead == o.game.asteroids[j].dead
    ensures |r.game.bullets| == |o.game.bullets|
    ensures forall i :: 0 <= i < |r.game.bullets| ==> r.game.bullets[i].dead == o.game.bullets[i].dead
    ensures r.game.bullets == UpdateBullets(o.game.bullets, dt, vp.Width(), vp.Height())
    ensures r.game.asteroids == UpdateAsteroids(o.game.asteroids, dt, vp.Width(), vp.Height())
    ensures r.game.particles == UpdateParticles(o.game.particles, dt, vp.Width(), vp.Height())
  {
    var g := o.game;
    Outcome(g.(bullets := UpdateBullets(g.bullets, dt, vp.Width(), vp.Height()),
               asteroids := UpdateAsteroids(g.asteroids, dt, vp.Width(), vp.Height()),
               particles := UpdateParticles(g.particles, dt, vp.Width(), vp.Height())),
            o.events, o.pos)
  }

  /** The hit-resolution part of update: detect, then resolve every hit. */
  datatype Resolved = Resolved(out: Outcome, crash: bool)

  function Hits(o: Outcome, env: Env): (r: Resolved)
    requires env.Valid()
    ensures var rep := CheckCollisions(o.game.bullets, o.game.asteroids, o.game.ship);
      r.crash == rep.shipCrash &&
      r.out.game.score == o.game.score + Gain(o.game.asteroids, rep.hits)
    ensures r.out.game.scene == o.game.scene && r.out.game.wave == o.game.wave &&
      r.out.game.lives == o.game.lives && r.out.game.ship == o.game.ship
    ensures AllScored(o.game.asteroids) ==>
      AllScored(r.out.game.asteroids) &&
      o.game.score <= r.out.game.score && o.game.hiScore <= r.out.game.hiScore
  {
    var g := o.game;
    var rep := CheckCollisions(g.bullets, g.asteroids, g.ship);
    var b := Board(g.score, g.hiScore, g.bullets, g.asteroids, g.particles, o.events, o.pos);
    ResolveHitsScore(b, rep.hits, env);
    var rb := ResolveHits(b, rep.hits, env);
    assert AllScored(g.asteroids) ==> g.score <= rb.score && g.hiScore <= rb.hiScore by {
      if AllScored(g.asteroids) {
        HiScoreFollowsScore(b, rep.hits, env);
      }
    }
    Resolved(
      Outcome(g.(score := rb.score, hiScore := rb.hiScore, bullets := rb.bullets, asteroids := rb.asteroids,
                 particles := rb.particles), rb.events, rb.pos),
      rep.shipCrash)
  }

  /** The hit phase saves the high score exactly when it rises: its new
      events hold a HiScoreSaved only then, and the last one carries the high
      score the phase ends with. */
  lemma HitsSaves(o: Outcome, env: Env)
    requires env.Valid()
    ensures var r := Hits(o, env).out;
      SavesFollow(o.events, r.events, o.game.hiScore, r.game.hiScore)
  {
    var g := o.game;
    var rep := CheckCollisions(g.bullets, g.asteroids, g.ship);
    var b := Board(g.score, g.hiScore, g.bullets, g.asteroids, g.particles, o.events, o.pos);
    ResolveHitsSaves(b, rep.hits, env);
  }

  /** What the crash branch of update leaves: the record, and whether the tick
      ended there (the game is over). */
  datatype AfterCrash = AfterCrash(out: Outcome, ended: bool)

  /** A crash while not invulnerable: an explosion at the ship and one life
      less. Below zero lives the game is over and the tick stops; otherwise the
      ship respawns at the middle of the window. */
  function CrashPhase(o: Outcome, crash: bool, vp: Viewport, env: Env): (r: AfterCrash)
    requires env.Valid()
    ensures !(crash && o.game.ship.invuln <= 0.0) ==> r == AfterCrash(o, false)
    ensures crash && o.game.ship.invuln <= 0.0 ==>
      var n := r.out.game;
      n.lives == o.game.lives - 1 &&
      (r.ended <==> n.lives < 0) &&
      (r.ended ==> n.scene == GameOver && n.ship == o.game.ship) &&
      (!r.ended ==> n.scene == o.game.scene &&
                    n.ship == RespawnShip(o.game.ship, vp.innerWidth / 2.0, vp.innerHeight / 2.0)) &&
      |n.particles| == |o.game.particles| + BlastSize(24.0) &&
      n.particles[..|o.game.particles|] == o.game.particles &&
      r.out.events == o.events + [ExplosionSound]
    ensures r.out.game.score == o.game.score && r.out.game.hiScore == o.game.hiScore &&
      r.out.game.wave == o.game.wave && r.out.game.bullets == o.game.bullets &&
      r.out.game.asteroids == o.game.asteroids
    ensures Tuned(o.game.ship) ==> Tuned(r.out.game.ship)
  {
    var g := o.game;
    if crash && g.ship.invuln <= 0.0 then
      var boom := Explode(g.particles, g.ship.x, g.ship.y, 24.0, env, o.pos);
      var lives := g.lives - 1;
      var events := o.events + [ExplosionSound];
      if lives < 0 then
        AfterCrash(Outcome(g.(particles := boom.value, lives := lives, scene := GameOver), events, boom.pos), true)
      else
        AfterCrash(Outcome(g.(particles := boom.value, lives := lives,
                              ship := RespawnShip(g.ship, vp.innerWidth / 2.0, vp.innerHeight / 2.0)),
                           events, boom.pos), false)
    else
      AfterCrash(o, false)
  }

  /** The positions of the elements `keep` accepts, in increasing order: an
      independent description of what a filter keeps. */
  function Picked<T>(s: seq<T>, keep: T -> bool): (idx: seq<nat>)
    ensures forall k :: 0 <= k < |idx| ==> idx[k] < |s| && keep(s[idx[k]])
    ensures forall a, b :: 0 <= a < b < |idx| ==> idx[a] < idx[b]
    ensures forall i :: 0 <= i < |s| && keep(s[i]) ==> i in idx
    decreases |s|
  {
    if s == [] then []
    else
      var n := |s| - 1;
      var before := Picked(s[..n], keep);
      if keep(s[n]) then before + [n] else before
  }

  /** `r` is what a filter by `keep` leaves of `s`: the accepted elements, in
      their original order, each once. */
  ghost predicate Filtered<T>(s: seq<T>, keep: T -> bool, r: seq<T>) {
    var idx := Picked(s, keep);
    |r| == |idx| && forall k :: 0 <= k < |r| ==> r[k] == s[idx[k]]
  }

  /** Array.prototype.filter: one pass from the front, keeping what `keep` accepts. */
  function Filter<T>(s: seq<T>, keep: T -> bool): (r: seq<T>)
    ensures Filtered(s, keep, r)
    decreases |s|
  {
    if s == [] then []
    else
      var n := |s| - 1;
      var kept := Filter(s[..n], keep);
      FilterStep(s, keep, kept);
      if keep(s[n]) then kept + [s[n]] else kept
  }

  lemma FilterStep<T>(s: seq<T>, keep: T -> bool, kept: seq<T>)
    requires s != [] && Filtered(s[..|s| - 1], keep, kept)
    ensures Filtered(s, keep, if keep(s[|s| - 1]) then kept + [s[|s| - 1]] else kept)
  {
    var n := |s| - 1;
    var idx0 := Picked(s[..n], keep);
    var r := if keep(s[n]) then kept + [s[n]] else kept;
    assert Picked(s, keep) == if keep(s[n]) then idx0 + [n] else idx0;
    forall k | 0 <= k < |kept|
      ensures r[k] == s[Picked(s, keep)[k]]
    {
      assert r[k] == kept[k] && Picked(s, keep)[k] == idx0[k];
      assert s[..n][idx0[k]] == s[idx0[k]];
    }
  }

  /** A filter's result holds exactly the accepted elements of its input. */
  lemma FilteredMembers<T>(s: seq<T>, keep: T -> bool, r: seq<T>)
    requires Filtered(s, keep, r)
    ensures forall x :: x in r <==> x in s && keep(x)
  {
    var idx := Picked(s, keep);
    forall x | x in s && keep(x) ensures x in r {
      var i :| 0 <= i < |s| && s[i] == x;
      assert i in idx;
      var k :| 0 <= k < |idx| && idx[k] == i;
      assert r[k] == x;
    }
  }

  /** `bullets.filter(b => !b._dead && b.ttl > 0)`: the live bullets, in their
      original order, each kept once. */
  function KeepLive(s: seq<Bullet>): (r: seq<Bullet>)
    ensures var idx := Picked(s, Live);
      |r| == |idx| && forall k :: 0 <= k < |r| ==> r[k] == s[idx[k]]
    ensures forall b :: b in r <==> b in s && Live(b)
  {
    var r := Filter(s, Live);
    FilteredMembers(s, Live, r);
    r
  }

  /** A rock that has not been destroyed. */
  predicate Intact(a: Asteroid) {
    !a.dead
  }

  /** `asteroids.filter(a => !a._dead)`: the intact rocks, in their original
      order, each kept once. */
  function KeepIntact(s: seq<Asteroid>): (r: seq<Asteroid>)
    ensures var idx := Picked(s, Intact);
      |r| == |idx| && forall k :: 0 <= k < |r| ==> r[k] == s[idx[k]]
    ensures forall a :: a in r <==> a in s && !a.dead
  {
    var r := Filter(s, Intact);
    FilteredMembers(s, Intact, r);
    r
  }

  /** The end of update: dead and expired bullets and dead rocks are removed; a
      cleared field starts the next wave around the ship. */
  function Cleanup(o: Outcome, vp: Viewport, env: Env, fuel: nat): (r: Option<Outcome>)
    requires env.Valid() && vp.Valid()
    ensures r.Some? ==>
      var n := r.value.game;
      n.scene == o.game.scene && n.score == o.game.score && n.hiScore == o.game.hiScore &&
      n.lives == o.game.lives && n.ship == o.game.ship && n.particles == o.game.particles &&
      r.value.events == o.events &&
      n.bullets == KeepLive(o.game.bullets) &&
      (forall j :: 0 <= j < |n.asteroids| ==> !n.asteroids[j].dead)
    ensures r.Some? && |KeepIntact(o.game.asteroids)| > 0 ==>
      r.value.game.asteroids == KeepIntact(o.game.asteroids) && r.value.game.wave == o.game.wave
    ensures r.Some? && |KeepIntact(o.game.asteroids)| == 0 ==>
      var n := r.value.game;
      n.wave == o.game.wave + 1 &&
      (-4 <= o.game.wave ==> |n.asteroids| == WaveSize(o.game.wave + 1)) &&
      forall j :: 0 <= j < |n.asteroids| ==> Spawned(n.asteroids[j], n.ship.x, n.ship.y, vp.Width(), vp.Height())
    ensures r.None? ==> |KeepIntact(o.game.asteroids)| == 0
    ensures r.Some? && AllScored(o.game.asteroids) ==> AllScored(r.value.game.asteroids)
  {
    var g := o.game;
    var shots := KeepLive(g.bullets);
    var rocks := KeepIntact(g.asteroids);
    assert AllScored(g.asteroids) ==> AllScored(rocks) by {
      if AllScored(g.asteroids) {
        forall j | 0 <= j < |rocks| ensures Scored(rocks[j]) {
          assert rocks[j] in g.asteroids;
        }
      }
    }
    if |rocks| == 0 then
      match SpawnWave(rocks, g.wave + 1, g.ship.x, g.ship.y, vp.Width(), vp.Height(), env, o.pos, fuel)
      case None => None
      case Some(d) =>
        Some(Outcome(g.(bullets := shots, asteroids := d.value, wave := g.wave + 1), o.events, d.pos))
    else
      Some(Outcome(g.(bullets := shots, asteroids := rocks), o.events, o.pos))
  }

  /** update(dt): steer and fire, move everything, resolve hits, handle a
      crash, then clean up and advance the wave. `None` only when a new wave
      could not be placed within the fuel. */
  function Update(g: Game, keys: Keys, dt: real, vp: Viewport, env: Env, pos: nat, fuel: nat): (r: Option<Outcome>)
    requires env.Valid() && vp.Valid() && 0.0 <= g.ship.maxSpeed
    ensures r.Some? ==> r.value.game.scene == g.scene || r.value.game.scene == GameOver
    ensures r.Some? && r.value.game.scene == GameOver && g.scene != GameOver ==> r.value.game.lives < 0
  {
    var fired := SteerAndFire(g, keys, dt, vp, env, pos);
    var moved := Move(fired, dt, vp);
    var hit := Hits(moved, env);
    var after := CrashPhase(hit.out, hit.crash, vp, env);
    if after.ended then Some(after.out) else Cleanup(after.out, vp, env, fuel)
  }

  /** The stages before the crash check keep the scene, wave and lives, never
      lower the score or the high score, and leave every rock scored. */
  lemma BeforeCrash(g: Game, keys: Keys, dt: real, vp: Viewport, env: Env, pos: nat)
    requires env.Valid() && vp.Valid() && Inv(g)
    ensures var hit := Hits(Move(SteerAndFire(g, keys, dt, vp, env, pos), dt, vp), env).out.game;
      hit.scene == g.scene && hit.wave == g.wave && hit.lives == g.lives && Tuned(hit.ship) &&
      g.score <= hit.score && g.hiScore <= hit.hiScore && AllScored(hit.asteroids)
  {
    var fired := SteerAndFire(g, keys, dt, vp, env, pos);
    var moved := Move(fired, dt, vp);
    assert AllScored(moved.game.asteroids) by {
      forall j | 0 <= j < |moved.game.asteroids| ensures Scored(moved.game.asteroids[j]) {
        assert Scored(g.asteroids[j]);
      }
    }
  }

  /** What one tick does to the counters and the scene. The tick ends the game
      exactly when a crash takes the last life; otherwise the scene stays, no
      dead or expired bullet and no dead rock is left, rocks remain, and the
      wave either stays or rises by one. */
  lemma UpdateOutcome(g: Game, keys: Keys, dt: real, vp: Viewport, env: Env, pos: nat, fuel: nat)
    requires env.Valid() && vp.Valid() && Inv(g) && g.scene == Playing
    ensures var r := Update(g, keys, dt, vp, env, pos, fuel);
      r.Some? ==>
        var n := r.value.game;
        n.score >= g.score && n.hiScore >= g.hiScore &&
        (n.lives == g.lives || n.lives == g.lives - 1) &&
        (n.scene == GameOver <==> n.lives < 0) &&
        (n.scene != GameOver ==>
          n.scene == Playing &&
          (forall i :: 0 <= i < |n.bullets| ==> Live(n.bullets[i])) &&
          (forall j :: 0 <= j < |n.asteroids| ==> !n.asteroids[j].dead) &&
          (n.wave == g.wave || n.wave == g.wave + 1) &&
          0 < |n.asteroids|)
  {
    BeforeCrash(g, keys, dt, vp, env, pos);
    var hit := Hits(Move(SteerAndFire(g, keys, dt, vp, env, pos), dt, vp), env);
    var after := CrashPhase(hit.out, hit.crash, vp, env);
    if !after.ended {
      var rest := KeepIntact(after.out.game.asteroids);
      if |rest| > 0 {
        assert rest[0] in rest;
      }
    }
  }

  /** A tick that ends the game returns before the clean-up: the wave stays,
      and the bullets and rocks are left as the hit phase marked them, dead
      ones included, with the score and high score it reached. */
  lemma UpdateGameOver(g: Game, keys: Keys, dt: real, vp: Viewport, env: Env, pos: nat, fuel: nat)
    requires env.Valid() && vp.Valid() && Inv(g) && g.scene == Playing
    ensures var hit := Hits(Move(SteerAndFire(g, keys, dt, vp, env, pos), dt, vp), env).out.game;
      var r := Update(g, keys, dt, vp, env, pos, fuel);
      r.Some? && r.value.game.scene == GameOver ==>
        var n := r.value.game;
        n.wave == g.wave && n.bullets == hit.bullets && n.asteroids == hit.asteroids &&
        n.score == hit.score && n.hiScore == hit.hiScore
  {
    BeforeCrash(g, keys, dt, vp, env, pos);
    var hit := Hits(Move(SteerAndFire(g, keys, dt, vp, env, pos), dt, vp), env);
    var after := CrashPhase(hit.out, hit.crash, vp, env);
    if !after.ended {
      assert after.out.game.scene == Playing;
    }
  }

  /** A tick that raises the wave number is one that cleared the field: the
      game goes on and the whole next wave is on the field. */
  lemma UpdateNewWave(g: Game, keys: Keys, dt: real, vp: Viewport, env: Env, pos: nat, fuel: nat)
    requires env.Valid() && vp.Valid() && Inv(g) && g.scene == Playing
    ensures var r := Update(g, keys, dt, vp, env, pos, fuel);
      r.Some? && r.value.game.wave == g.wave + 1 ==>
        r.value.game.scene == Playing && |r.value.game.asteroids| == WaveSize(g.wave + 1)
  {
    BeforeCrash(g, keys, dt, vp, env, pos);
    var hit := Hits(Move(SteerAndFire(g, keys, dt, vp, env, pos), dt, vp), env);
    var after := CrashPhase(hit.out, hit.crash, vp, env);
    assert after.out.game.wave == g.wave;
    if !after.ended {
      assert after.out.game.scene == Playing;
      assert Update(g, keys, dt, vp, env, pos, fuel) == Cleanup(after.out, vp, env, fuel);
    }
  }

  /** Every tick keeps the invariant. */
  lemma UpdateKeepsInv(g: Game, keys: Keys, dt: real, vp: Viewport, env: Env, pos: nat, fuel: nat)
    requires env.Valid() && vp.Valid() && Inv(g) && g.scene == Playing
    ensures var r := Update(g, keys, dt, vp, env, pos, fuel);
      r.Some? ==> Inv(r.value.game)
  {
    UpdateOutcome(g, keys, dt, vp, env, pos, fuel);
    BeforeCrash(g, keys, dt, vp, env, pos);
    var hit := Hits(Move(SteerAndFire(g, keys, dt, vp, env, pos), dt, vp), env);
    var after := CrashPhase(hit.out, hit.crash, vp, env);
    assert Tuned(after.out.game.ship) && AllScored(after.out.game.asteroids);
    assert after.out.game.wave == g.wave && 0 <= after.out.game.score;
  }

  /** Starting a game from any record gives a record that keeps the invariant:
      a reset one, or the old one, which already kept it. */
  lemma StartPlayingKeepsInv(g: Game, vp: Viewport, env: Env, pos: nat, fuel: nat)
    requires env.Valid() && vp.Valid()
    requires g.scene == StartScreen || g.scene == GameOver || Inv(g)
    ensures var r := StartPlaying(g, vp, env, pos, fuel);
      r.Some? ==> Inv(r.value.game)
  {
    var r := StartPlaying(g, vp, env, pos, fuel);
    if r.Some? && (g.scene == StartScreen || g.scene == GameOver) {
      var n := r.value.game;
      forall j | 0 <= j < |n.asteroids| ensures Scored(n.asteroids[j]) {
        assert Spawned(n.asteroids[j], n.ship.x, n.ship.y, vp.Width(), vp.Height());
      }
    }
  }

  /** `clamp((now - lastTime) / 1000, 0, 1 / 30)`: the tick length in seconds,
      never negative and never more than a thirtieth of a second. */
  function FrameDt(now: real, last: real): (dt: real)
    ensures 0.0 <= dt <= 1.0 / 30.0
    ensures 0.0 <= now - last <= 1000.0 / 30.0 ==> dt * 1000.0 == now - last
    ensures now < last ==> dt == 0.0
    ensures now - last > 1000.0 / 30.0 ==> dt == 1.0 / 30.0
  {
    Clamp((now - last) / 1000.0, 0.0, 1.0 / 30.0)
  }

  /** The scene after the key checks of one frame: start first (only from the
      start or game-over screen), then pause, which toggles between playing
      and paused and does nothing elsewhere. */
  function SceneAfterKeys(scene: Scene, start: bool, pause: bool): (r: Scene)
    ensures !start && !pause ==> r == scene
    ensures r == StartScreen <==> scene == StartScreen && !start
    ensures r == GameOver <==> scene == GameOver && !start
    ensures (scene == Playing || scene == Paused) ==> (r == scene <==> !pause)
    ensures (scene == StartScreen || scene == GameOver) && start ==> (r == Playing <==> !pause)
  {
    var s := if start && (scene == StartScreen || scene == GameOver) then Playing else scene;
    if pause then
      (if s == Playing then Paused else if s == Paused then Playing else s)
    else s
  }

  /** Two pause presses in a row bring the scene back. */
  lemma PauseTwice(scene: Scene)
    ensures SceneAfterKeys(SceneAfterKeys(scene, false, true), false, true) == scene
  {
  }

  /** The record after the key checks of a frame, and the key state left. */
  datatype Checked = Checked(out: Outcome, keys: Keys)

  /** The scene transitions of loop(now): a start press (which starts a game
      only from the start or game-over screen), then a pause press, then a mute
      press; each press is consumed whether or not it did anything. */
  function SceneKeys(g: Game, keys: Keys, vp: Viewport, env: Env, pos: nat, fuel: nat): (r: Option<Checked>)
    requires env.Valid() && vp.Valid()
    ensures r.Some? ==> r.value.keys == keys.(pressed := keys.pressed - {Start, Pause, Mute})
    ensures r.Some? ==> r.value.out.game.scene == SceneAfterKeys(g.scene, Start in keys.pressed, Pause in keys.pressed)
    ensures g.scene == Playing || g.scene == Paused || Start !in keys.pressed ==>
      r.Some? && r.value.out.game == g.(scene := r.value.out.game.scene) && r.value.out.pos == pos
    ensures r.Some? && 0.0 <= g.ship.maxSpeed ==> 0.0 <= r.value.out.game.ship.maxSpeed
    ensures r.Some? ==> (MuteToggled in r.value.out.events <==> Mute in keys.pressed)
  {
    var s := WasPressed(keys, Start);
    var started :=
      if s.had && (g.scene == StartScreen || g.scene == GameOver) then StartPlaying(g, vp, env, pos, fuel)
      else Some(Outcome(g, [], pos));
    if started.None? then None
    else
      var o := started.value;
      var p := WasPressed(s.keys, Pause);
      var scene :=
        if p.had && o.game.scene == Playing then Paused
        else if p.had && o.game.scene == Paused then Playing
        else o.game.scene;
      var m := WasPressed(p.keys, Mute);
      var events := o.events + (if m.had then [MuteToggled] else []);
      Some(Checked(Outcome(o.game.(scene := scene), events, o.pos), m.keys))
  }

  /** What one frame leaves: the record with its events, the key state, and the
      timestamp kept for the next frame. */
  datatype FrameOut = FrameOut(out: Outcome, keys: Keys, last: real)

  /** The rest of a frame after the key checks: a tick of update when the scene
      is playing, then nextFrame. The tick's events follow those of the keys. */
  function Tick(c: Checked, dt: real, now: real, vp: Viewport, env: Env, fuel: nat): (r: Option<FrameOut>)
    requires env.Valid() && vp.Valid() && 0.0 <= c.out.game.ship.maxSpeed
    ensures r.Some? ==> r.value.keys == NextFrame(c.keys) && r.value.last == now
    ensures c.out.game.scene != Playing ==> r == Some(FrameOut(c.out, NextFrame(c.keys), now))
    ensures c.out.game.scene == Playing && r.Some? ==>
      r.value.out.game.scene == Playing || r.value.out.game.scene == GameOver
    ensures r.Some? ==>
      |c.out.events| <= |r.value.out.events| && r.value.out.events[..|c.out.events|] == c.out.events
  {
    var o := c.out;
    if o.game.scene == Playing then
      match Update(o.game, c.keys, dt, vp, env, o.pos, fuel)
      case None => None
      case Some(t) =>
        var events := o.events + t.events;
        assert events[..|o.events|] == o.events;
        Some(FrameOut(t.(events := events), NextFrame(c.keys), now))
    else
      Some(FrameOut(o, NextFrame(c.keys), now))
  }

  /** The game part of loop(now): the tick length, the scene keys, a tick of
      update only while playing, and nextFrame. `None` only when a wave could
      not be placed within the fuel. */
  function Frame(g: Game, keys: Keys, now: real, last: real,
                 vp: Viewport, env: Env, pos: nat, fuel: nat): (r: Option<FrameOut>)
    requires env.Valid() && vp.Valid() && 0.0 <= g.ship.maxSpeed
    ensures r.Some? ==> r.value.keys == NextFrame(keys) && r.value.last == now
    ensures var sc := SceneAfterKeys(g.scene, Start in keys.pressed, Pause in keys.pressed);
      r.Some? && sc != Playing ==> r.value.out.game.scene == sc
    ensures var sc := SceneAfterKeys(g.scene, Start in keys.pressed, Pause in keys.pressed);
      sc == g.scene && g.scene != Playing ==> r.Some? && r.value.out.game == g && r.value.out.pos == pos
    ensures var sc := SceneAfterKeys(g.scene, Start in keys.pressed, Pause in keys.pressed);
      r.Some? && sc == Playing ==> r.value.out.game.scene == Playing || r.value.out.game.scene == GameOver
    ensures r.Some? && Mute in keys.pressed ==> MuteToggled in r.value.out.events
  {
    match SceneKeys(g, keys, vp, env, pos, fuel)
    case None => None
    case Some(c) =>
      assert NextFrame(c.keys) == NextFrame(keys);
      var r := Tick(c, FrameDt(now, last), now, vp, env, fuel);
      assert r.Some? && MuteToggled in c.out.events ==> MuteToggled in r.value.out.events[..|c.out.events|];
      r
  }

  /** The key checks keep the invariant. */
  lemma SceneKeysKeepsInv(g: Game, keys: Keys, vp: Viewport, env: Env, pos: nat, fuel: nat)
    requires env.Valid() && vp.Valid() && Inv(g)
    ensures var r := SceneKeys(g, keys, vp, env, pos, fuel);
      r.Some? ==> Inv(r.value.out.game)
  {
    if Start in keys.pressed && (g.scene == StartScreen || g.scene == GameOver) {
      StartPlayingKeepsInv(g, vp, env, pos, fuel);
    }
  }

  /** The tick after the key checks keeps the invariant. */
  lemma TickKeepsInv(c: Checked, dt: real, now: real, vp: Viewport, env: Env, fuel: nat)
    requires env.Valid() && vp.Valid() && Inv(c.out.game)
    ensures var r := Tick(c, dt, now, vp, env, fuel);
      r.Some? ==> Inv(r.value.out.game)
  {
    if c.out.game.scene == Playing {
      UpdateKeepsInv(c.out.game, c.keys, dt, vp, env, c.out.pos, fuel);
    }
  }

  /** Every frame keeps the invariant, whatever keys were pressed. */
  lemma FrameKeepsInv(g: Game, keys: Keys, now: real, last: real,
                      vp: Viewport, env: Env, pos: nat, fuel: nat)
    requires env.Valid() && vp.Valid() && Inv(g)
    ensures var r := Frame(g, keys, now, last, vp, env, pos, fuel);
      r.Some? ==> Inv(r.value.out.game)
  {
    SceneKeysKeepsInv(g, keys, vp, env, pos, fuel);
    var c := SceneKeys(g, keys, vp, env, pos, fuel);
    if c.Some? {
      TickKeepsInv(c.value, FrameDt(now, last), now, vp, env, fuel);
      assert Frame(g, keys, now, last, vp, env, pos, fuel) == Tick(c.value, FrameDt(now, last), now, vp, env, fuel);
    }
  }
}
