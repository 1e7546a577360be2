# Asteroids game rules in Dafny

This project models the game-rule core of a browser Asteroids clone: the ship,
bullets, rocks and particles, the collision detector, the wave spawner, the
keyboard state, and the session loop of `main.js` (reset, start, pause, mute,
and the per-frame `update`). Each JavaScript file has one Dafny module:
`GameMath` (js/math.js), `Asteroids`, `Bullets`, `Ships`, `Particles`,
`Collisions`, `Waves`, `Input` and `Session` (main.js). `Wrappers` holds
`Option`. `Bundle` states the main properties once more against `bundle.js`,
the single-script copy of the same game. That copy behaves as the module files
do: the same constants, the same branch order and the same draw order.

How the model treats the browser and the host:

- **Mutation.** The JavaScript mutates one `game` object in place. Here every
  step is a pure function from one record to the next.
- **Events.** Sounds, the saved high score, resuming audio and toggling mute
  become `Event`s, listed in the order the code would trigger them.
- **Host numerics.** `Math.random()`, `Math.cos`, `Math.sin`, `Math.hypot` and
  `Math.pow` are fields of a `GameMath.Env`. Its `Valid()` states what the
  proofs rely on: draws lie in [0, 1), cos² + sin² = 1, hypot is the
  non-negative root, and pow of a base in (0, 1] stays in (0, 1].
- **Random draws.** Draws are read through a cursor `pos`, so every consumer
  draws exactly the values, in exactly the order, of the JavaScript.
- **Window size.** `Session.Viewport` is the window size. The play field is its
  floor, as in `resize()`. `respawnShip` uses the unrounded window centre.
- **Audio object.** `createAudio()` always returns an object, so every
  `if (audio)` test in `main.js` passes and the model drops it.

Behaviours of the source that the model keeps on purpose, each with a proved
statement:

- **Two bullets on one rock.** Two live bullets on the same live rock in one
  tick are both reported (`Collisions.SameAsteroidTwice`). Each then scores the
  rock's value and splits it again: a rock above radius 18 hit twice scores
  twice, leaves four fragments behind it and sets off two explosions
  (`Session.RockHitTwice`).
- **Dead rocks and the ship.** The ship test does not skip rocks already marked
  dead (`Collisions.CheckCollisions`).
- **No wrapping in distances.** Distances use raw coordinates; the field's
  wrapping is ignored.
- **Small windows.** `spawnWave` retries a rejected edge point with no bound.
  In a window of at most 200 by 200 every edge point lies within 150 of the
  ship that `resetGame` places at the window's centre, so starting a game
  never finishes (`Session.SmallWindowNeverResets`; `Waves.SmallFieldNeverSpawns`
  states the same for a ship at the centre of the field). The model bounds the
  retries with a `fuel` argument, and its `None` result is that endless loop.
  In a window whose field is at least 302 by 302 a game always starts
  (`Session.LargeWindowStarts`).

## Model

| member | source | states |
|---|---|---|
| GameMath.Clamp | js/math.js:3-5 | the result lies in [min, max] when min <= max; it is the value itself inside the range and the nearer bound outside it |
| GameMath.Wrap | js/math.js:7-11 | one shift by the field size at most; a value at most one field outside lands inside [0, size) and an inside value is unchanged |
| GameMath.DriftStaysInField | js/math.js:7-11 | a position inside the field moved by less than one field per tick stays inside the field |
| GameMath.Dist2 | js/math.js:13-17 | the squared distance is never negative and is zero for a point and itself |
| GameMath.Dist2Symmetric | js/math.js:13-17 | the squared distance does not depend on the order of the two points |
| GameMath.RandRange | js/math.js:23-25 | a draw in [0, 1) maps into [min, max) and a zero draw maps to min |
| GameMath.Trunc | js/entities/asteroid.js:6 | the bitwise or with 0 truncates toward zero: for x >= 0 the largest integer not above x, for x < 0 the smallest not below it |
| Asteroids.ScoreValue | js/entities/asteroid.js:22 | 20 exactly for radius >= 40, 50 exactly for 24 <= radius < 40, 100 exactly below 24 |
| Asteroids.ScoreValueAntitone | js/entities/asteroid.js:22 | a smaller rock is never worth less than a larger one, and every value is positive |
| Asteroids.SideCount | js/entities/asteroid.js:6 | a draw in [0, 1) gives 10 to 14 vertices |
| Asteroids.SampleAngleOrdered | js/entities/asteroid.js:8-9 | the vertex angles are strictly increasing and lie in [0, 2π) |
| Asteroids.SamplesFrom | js/entities/asteroid.js:8-12 | one vertex per remaining index, at angle (i / sides)·2π, with a radius jittered into [0.75 r, 1.1 r) |
| Asteroids.CreateAsteroid | js/entities/asteroid.js:3-24 | a live, correctly scored rock at the given point and radius, with 10 to 14 vertices, angle in [0, 2π), spin in [-0.7, 0.7), and 5 + sides draws consumed |
| Asteroids.CreatedVelocity | js/entities/asteroid.js:4-16 | the velocity has length exactly randRange(40, 90)·(radius / 46), so a rock of positive radius drifts at 40 to 90 px/s per 46 px of radius |
| Asteroids.DriftLength | js/entities/asteroid.js:4-16 | the drift drawn from the first two draws has squared length equal to the squared drawn speed, and that speed lies between 40 and 90 px/s per 46 px of a positive radius |
| Asteroids.CreatedShapeOrdered | js/entities/asteroid.js:8-11 | the silhouette of a created rock goes round in increasing angle |
| Asteroids.UpdateAsteroids | js/entities/asteroid.js:26-34 | every rock keeps its place in the list, its size, score and dead flag; it moves by v·dt with one wrap and turns by spin·dt |
| Asteroids.UpdateAsteroidsInField | js/entities/asteroid.js:26-34 | rocks inside the field that move less than one field per tick stay inside it |
| Asteroids.SplitAsteroid | js/entities/asteroid.js:58-68 | a rock above 18 gives exactly two live, scored fragments of 0.6 and 0.5 times its radius at its position; a smaller one gives none and draws nothing |
| Bullets.CreateBullet | js/entities/bullet.js:3-16 | a live bullet with ttl 1.15 and radius 2, placed radius + 2 ahead along the heading, at 580 along the heading plus a fifth of the ship's velocity |
| Bullets.BulletLeavesNose | js/entities/bullet.js:4-6 | the new bullet is exactly radius + 2 from the ship's centre |
| Bullets.UpdateBullets | js/entities/bullet.js:18-26 | every bullet keeps its place and dead flag, loses dt of its ttl and moves by v·dt with one wrap |
| Bullets.UpdateBulletsInField | js/entities/bullet.js:18-26 | bullets inside the field that move less than one field per tick stay inside it |
| Bullets.AgeSubtractsElapsed | js/entities/bullet.js:20 | over any run of ticks a bullet's ttl drops by exactly the total elapsed time |
| Ships.CreateShip | js/entities/ship.js:3-19 | the tuned craft at rest at the given point, facing up, ready to fire and invulnerable for 2 seconds |
| Ships.RespawnShip | js/entities/ship.js:21-28 | the craft is back at the given centre, at rest, facing up, invulnerable for 2 seconds; nothing else changes |
| Ships.TurnedAngle | js/entities/ship.js:32-33 | left alone turns by -turnSpeed·dt, right alone by +turnSpeed·dt, and both or neither leave the heading |
| Ships.NormalizeAngle | js/entities/ship.js:34-35 | one correction by 2π at most; an angle within one turn of the range lands in [0, 2π] |
| Ships.ClampSpeed | js/entities/ship.js:49-53 | the speed ends at most maxSpeed; a slower velocity is unchanged, and a clamped one keeps its direction |
| Ships.ApplyDrag | js/entities/ship.js:56-57 | a drag factor in (0, 1] never raises the speed; a non-negative factor keeps the direction (collinear, and no component changes sign) |
| Ships.Pushed | js/entities/ship.js:39-46 | without thrust the velocity is left as it was |
| Ships.ThrustImpulse | js/entities/ship.js:39-42 | with thrust held the velocity changes by a vector of length thrust·dt lying along the heading |
| Ships.ShipVelocity | js/entities/ship.js:48-57 | after the speed limit and drag the speed is at most maxSpeed; a coasting craft under the limit is only slowed by drag^(60·dt) |
| Ships.UpdateShip | js/entities/ship.js:30-74 | the thrust callback receives whether thrust is held; tuning is unchanged; the heading is the turned angle corrected once into [0, 2π]; the velocity is the thrust, limit and drag result at that heading; the position moves by the new velocity with one wrap; the cooldown drops by dt and canShoot is exactly cooldown <= 0; invulnerability and blink run only while positive; the speed stays within maxSpeed |
| Ships.DidShoot | js/entities/ship.js:75-77 | the cooldown restarts at the fire delay and nothing else changes |
| Ships.UpdateShipInField | js/entities/ship.js:59-63 | a craft inside the field stays inside when maxSpeed·dt is less than the field |
| Particles.Add | js/systems/particles.js:3 | one particle appended after the others, with ttl equal to its life |
| Particles.AdvanceParticle | js/systems/particles.js:10-15 | ttl drops by dt and only the position and ttl change |
| Particles.UpdateParticles | js/systems/particles.js:7-18 | the list never grows and every particle left has positive ttl |
| Particles.Survivors | js/systems/particles.js:17 | an index is listed, in increasing order, exactly when that particle's aged ttl is positive |
| Particles.UpdateParticlesKeepsSurvivors | js/systems/particles.js:7-18 | the update keeps exactly the survivors, each advanced once, in their original order |
| Particles.BlastSize | js/systems/particles.js:36 | 12 plus the whole number of quarters in the radius |
| Particles.Spark4 | js/systems/particles.js:38-40 | one spark at the blast centre with full life in [0.6, 1.2) and size in [2, 4) |
| Particles.Sparks | js/systems/particles.js:37-41 | exactly `count` sparks appended after the old particles, four draws each |
| Particles.Explode | js/systems/particles.js:35-42 | 12 plus the whole quarters of the radius in sparks appended, all at the blast centre, with the old particles untouched |
| Collisions.FirstTarget | js/systems/collisions.js:11-19 | the lowest-index live rock the bullet overlaps, or none when no live rock overlaps it |
| Collisions.HitsFrom | js/systems/collisions.js:8-20 | at most one hit per bullet, in increasing bullet order, each pairing a live bullet with its first live overlapping rock |
| Collisions.AnyTouchesShip | js/systems/collisions.js:24-31 | true exactly when some rock, dead or not, overlaps the ship |
| Collisions.CheckCollisions | js/systems/collisions.js:3-35 | indices are in range and bullets strictly increasing; no crash while invulnerable; otherwise a crash exactly when some rock overlaps the ship |
| Collisions.ReportedIffStruck | js/systems/collisions.js:8-20 | a bullet is reported exactly when it is live and overlaps a live rock |
| Collisions.ReportedAt | js/systems/collisions.js:8-20 | one bullet from the outer loop's start on is reported exactly when it is live and overlaps a live rock |
| Collisions.CheckCollisionsMeaning | js/systems/collisions.js:3-35 | every hit is a first match, and the reported bullets are exactly the struck ones |
| Collisions.SameAsteroidTwice | js/systems/collisions.js:8-20 | two live bullets on one live rock are both reported against that rock |
| Waves.WaveSize | js/systems/waves.js:4 | 4 rocks in wave 1, one more per wave, and 9 from wave 6 on |
| Waves.EdgePoint | js/systems/waves.js:9-13 | the candidate lies on one of the four edges of the field |
| Waves.SpawnFrom | js/systems/waves.js:6-23 | when it finishes, exactly `remaining` rocks are appended after the old ones; each is live, scores 20, has radius in [42, 52), lies on an edge and is at least 150 from the ship |
| Waves.SpawnWave | js/systems/waves.js:3-24 | 3 + min(6, wave) new rocks after the old ones, which are unchanged, each placed as above |
| Waves.AcceptedStep | js/systems/waves.js:18-22 | an accepted candidate becomes the next rock and the loop goes on from the draw after it with one rock fewer |
| Waves.AcceptedSpawn | js/systems/waves.js:6-23 | when every candidate is accepted, one unit of fuel per rock is enough for the spawner to finish |
| Waves.ClearEdgesAccept | js/systems/waves.js:9-20 | when no border point is within 150 of the ship, every candidate is accepted |
| Waves.CentredLargeFieldClear | js/systems/waves.js:15-18 | in a field at least 300 by 300 with the ship at its centre, every border point is at least 150 from the ship |
| Waves.LargeFieldSpawns | js/systems/waves.js:3-24 | in a field at least 300 by 300 with the ship at its centre, a wave is placed in full when the fuel covers one candidate per rock |
| Waves.InnerShipClear | js/systems/waves.js:15-18 | a ship at least 150 from each of the four edge lines is at least 150 from every border point |
| Waves.BlockedNeverSpawns | js/systems/waves.js:6-23 | when every border point is within 150 of the ship, the spawner never finishes, whatever the fuel |
| Waves.WithinReach | js/systems/waves.js:16-18 | a point within 100 of the ship on both axes is rejected |
| Waves.OutOfReach | js/systems/waves.js:16-18 | a point at least 150 from the ship along either axis is accepted |
| Waves.SmallFieldTooClose | js/systems/waves.js:15-18 | in a field of at most 200 by 200, every point of the field is within 150 of its centre |
| Waves.SmallFieldNeverSpawns | js/systems/waves.js:15-20 | in a field of at most 200 by 200 with the ship at its centre every candidate is rejected, so the retry loop never finishes |
| Input.KeyToAction | js/input.js:5-19 | a code maps to an action only when the code is one of that action's keys |
| Input.KeyToActionMatchesBindings | js/input.js:5-19 | a code maps to an action exactly when the code is bound to it, and to nothing exactly when no action binds it |
| Input.OnKeyDown | js/input.js:21-31 | unmapped codes and auto-repeats of pause, start and mute change nothing; any other key adds its action to both down and pressed |
| Input.OnKeyUp | js/input.js:33-38 | the action is no longer held and a pending press stays pending |
| Input.IsDown | js/input.js:44 | held exactly when the action is in the down set |
| Input.WasPressed | js/input.js:45-49 | reports exactly whether a press was pending and consumes it, leaving everything else |
| Input.WasPressedOnce | js/input.js:45-49 | asking twice in a row answers false the second time and changes nothing more |
| Input.NextFrame | js/input.js:50-56 | pending pause, start and mute presses are dropped; movement and shoot presses and the held keys stay |
| Session.Viewport.Width | main.js:29 | the field width is the window width rounded down: non-negative, at most the window width and less than one below it |
| Session.Viewport.Height | main.js:30 | the field height is the window height rounded down: non-negative, at most the window height and less than one below it |
| Session.LoadedHi | main.js:48 | the stored high score when one is stored, and 0 when none is |
| Session.Inv | main.js:45-56 | the invariant of the game record: wave at least 1, score non-negative, lives in [-1, 3] and non-negative outside game over, a tuned ship, correctly scored rocks |
| Session.InitialGame | main.js:45-56 | the start screen, score 0, the stored high score (0 when none), wave 1, three lives, an empty field; the invariant holds |
| Session.FreshShip | main.js:65-66 | a tuned craft at rest at the window centre, facing up, invulnerable, ready to fire |
| Session.ResetGame | main.js:58-68 | score 0, wave 1, three lives, no bullets or particles, a fresh ship, and four rocks placed by the spawner; scene and high score kept |
| Session.StartPlaying | main.js:79-87 | the scene ends as playing and audio is resumed; from the start or game-over screen the game is reset first, otherwise only the scene changes |
| Session.WindowCentreClear | main.js:28-30 | with a floored field of at least 302 by 302, the window-centred ship is at least 150 from every border point |
| Session.LargeWindowStarts | main.js:58-68 | with a floored field of at least 302 by 302 and fuel for four candidates, the reset places its rocks and starting a game succeeds from any screen |
| Session.SmallWindowNeverResets | main.js:58-68 | in a window of at most 200 by 200 the reset's spawner rejects every candidate for the window-centred ship and never finishes |
| Session.OverlayClick | main.js:89-92 | a click starts a game only from the start or game-over screen |
| Session.ControlsOf | main.js:129 | the ship turns left, turns right or thrusts exactly while that key is held |
| Session.ThrustFlame | main.js:129-143 | the flame starts radius + 4 behind the ship along its heading, lives 0.25 to 0.5 seconds, size 2 to 4 |
| Session.SteerAndFire | main.js:127-151 | counters and rocks are untouched and tuning kept; a held thrust adds one flame particle; a ready ship with shoot held appends one bullet, restarts its cooldown and plays the shoot sound, and otherwise nothing fires |
| Session.ResolveOne | main.js:160-180 | an out-of-range rock index is skipped; otherwise exactly the hit bullet and rock are marked dead, the score rises by the rock's value, the high score follows it, and at most two smaller live fragments are appended |
| Session.ResolveOneSplits | main.js:167-179 | the rocks a hit appends are exactly the fragments split returns for the struck rock, and the explosion adds 12 plus the whole quarters of its radius in sparks |
| Session.SplitHit | main.js:167-179 | one hit on a rock above radius 18 raises the score by its value, marks it dead, and appends fragments of 0.6 and 0.5 times its radius |
| Session.RockHitTwice | main.js:160-180 | two hits on one rock above radius 18 score it twice, mark it dead, append four fragments of 0.6, 0.5, 0.6 and 0.5 times its radius, and add two explosions |
| Session.ResolveOneEvents | main.js:170-176 | a hit on a rock in range emits HiScoreSaved with the new score exactly when it beats the high score, then ExplosionSound |
| Session.LastSaveIndex | main.js:170-173 | the position of the last HiScoreSaved in a list of events, -1 when there is none: every later event is something else |
| Session.LastSaveUnique | main.js:170-173 | the position is the only one with those properties |
| Session.LastSavedAppend | main.js:170-173 | the last save of two stretches of events is that of the second, or of the first when the second saves nothing |
| Session.ResolveOneSaves | main.js:170-176 | one hit only appends events, and among them the last save is the new high score exactly when it rose |
| Session.SavesChain | main.js:160-180 | two stretches that each keep the saves in step with the high score chain into one |
| Session.ResolveHitsSaves | main.js:160-180 | over a tick's hits the events only grow; a HiScoreSaved is emitted exactly when the high score rises, and the last one carries the final high score |
| Session.HitsSaves | main.js:157-180 | the hit phase of a tick saves the high score exactly when it rises, the last save carrying the high score it ends with |
| Session.ResolveHits | main.js:159-180 | bullets keep their number and everything but their dead flag; old rocks keep their place; fragments only go at the end and are scored; old particles stay |
| Session.ResolveHitsMarks | main.js:164-178 | a bullet or an old rock is dead afterwards exactly when it was dead before or some hit names it; fragments are live |
| Session.ResolveHitsScore | main.js:169 | the score rises by the value of every hit, a rock hit twice counting twice |
| Session.GainAtLeast | main.js:169 | every hit on a scored rock is worth at least 20 points |
| Session.HiScoreFollowsScore | main.js:170-173 | after a tick's hits the high score is the larger of the old high score and the new score, and the score rose by at least 20 per hit; with no hit nothing changes |
| Session.Move | main.js:153-155 | counters, ship and events are unchanged; the bullets, rocks and particles are exactly those of updateBullets, updateAsteroids and updateParticles on the floored field; rocks and bullets keep their number, order, score, size and dead flags |
| Session.Hits | main.js:157-180 | the crash flag is the detector's; the score rises by the value of the hits; scene, wave, lives and ship are untouched; with scored rocks the score and high score never drop and all rocks stay scored |
| Session.CrashPhase | main.js:181-195 | without a crash, or while invulnerable, nothing changes; otherwise one life is lost, an explosion of 18 sparks and its sound are added, and the game is over exactly when lives drop below zero, else the ship respawns |
| Session.Picked | main.js:198-199 | the kept indices in strictly increasing order: each names an element the test accepts, and every accepted element is named |
| Session.Filter | main.js:198-199 | the result lists, in their original order, exactly the elements at the kept indices |
| Session.FilterStep | main.js:198-199 | filtering one more element appends it exactly when the test accepts it |
| Session.FilteredMembers | main.js:198-199 | a filtered value is in the result exactly when it is in the list and the test accepts it |
| Session.KeepLive | main.js:198 | the bullets that are not dead and have ttl left, in their original order; a bullet is kept exactly when it is in the list, not dead and has ttl left |
| Session.KeepIntact | main.js:199 | the rocks not marked dead, in their original order; a rock is kept exactly when it is in the list and not dead |
| Session.Cleanup | main.js:197-205 | only live bullets and intact rocks remain; a cleared field moves to the next wave with 3 + min(6, wave) rocks placed by the spawner, otherwise the wave is unchanged |
| Session.Update | main.js:127-208 | the scene stays or becomes game over, and it becomes game over only with lives below zero |
| Session.BeforeCrash | main.js:127-180 | before the crash check, scene, wave and lives are kept, the ship stays tuned, the score and high score never drop and all rocks stay scored |
| Session.UpdateOutcome | main.js:127-208 | a tick never lowers the score or high score and loses at most one life; it ends the game exactly when lives drop below zero; otherwise it leaves only live bullets and intact rocks, at least one rock, and the wave the same or one higher |
| Session.UpdateGameOver | main.js:186-191 | a tick that ends the game returns before the clean-up: the wave stays, and the bullets, rocks, score and high score are those the hit phase left, dead bullets and rocks included |
| Session.UpdateNewWave | main.js:201-205 | a tick that moves to the next wave leaves the game playing with exactly 3 + min(6, wave) rocks of the new wave |
| Session.UpdateKeepsInv | main.js:127-208 | a playing tick keeps the invariant: wave >= 1, score >= 0, lives in [-1, 3] and non-negative outside game over, a tuned ship, correctly scored rocks |
| Session.StartPlayingKeepsInv | main.js:79-87 | starting a game keeps the invariant |
| Session.FrameDt | main.js:96 | the tick length is in [0, 1/30] seconds; it is the real elapsed time inside that range, 0 for a clock that went back, 1/30 for a long pause |
| Session.SceneAfterKeys | main.js:99-111 | start leaves the start and game-over screens and nothing else; pause toggles playing and paused and nothing else; with no key the scene stays |
| Session.PauseTwice | main.js:103-111 | two pause presses bring back the scene |
| Session.SceneKeys | main.js:99-115 | start, pause and mute presses are consumed; the scene becomes the one the keys select; without a start from the start or game-over screen the record is otherwise unchanged; mute toggles exactly when pressed |
| Session.Tick | main.js:117-122 | update runs only when the scene is playing, it leaves the scene playing or game over, the one-shot presses are cleared, and the tick's events follow the key events |
| Session.Frame | main.js:95-124 | one-shot presses are cleared and the timestamp advances; update runs only when the scene after the keys is playing; a frame whose keys change nothing off the playing scene changes nothing; a mute press always toggles mute |
| Session.SceneKeysKeepsInv | main.js:99-115 | the key checks keep the invariant |
| Session.TickKeepsInv | main.js:117-122 | the update step of a frame keeps the invariant |
| Session.FrameKeepsInv | main.js:95-124 | every frame keeps the invariant, whatever keys were pressed |
| Bundle.InputAgrees | bundle.js:11-35 | the bundled key map agrees with the binding table both ways; one-shot presses last at most one frame; a press is reported once |
| Bundle.ParticlesAgree | bundle.js:39-47 | the bundled particle update keeps exactly the survivors, each advanced, with positive ttl |
| Bundle.ShipAgrees | bundle.js:67-84 | the bundled ship update keeps the tuning, keeps the speed at most 420, and keeps a craft that starts inside the field inside it when dt ≥ 0 and 420·dt is less than the width and the height |
| Bundle.SplitAgrees | bundle.js:100-107 | the bundled fragments are scored by their own size and never worth less than the rock they came from |
| Bundle.CollisionsAgree | bundle.js:110-115 | the bundled detector reports exactly the struck bullets with their first live target, and a crash exactly when the ship is not invulnerable (invuln ≤ 0) and some rock, dead or alive, overlaps it |
| Bundle.WaveAgrees | bundle.js:118-129 | with the ship at the centre, the bundled spawner never finishes in a field of at most 200 by 200, and always finishes in one of at least 300 by 300 when the fuel covers one candidate per rock |
| Bundle.ResetAgrees | bundle.js:159-164 | a game started from the start or game-over screen is a fresh one that keeps the invariant |
| Bundle.LoopAgrees | bundle.js:166-192 | every bundled frame keeps the invariant, whatever the scene, and a playing tick that does not end the game leaves only live bullets and intact rocks |

## Left out

- Drawing (`drawShip`, `drawAsteroids`, `drawBullets`, `drawParticles`, `render`), the HUD, the overlay text and `resize`'s canvas scaling: they do not change the game record.
- The ship's blink only feeds the drawing: it is updated but never read.
- Audio (js/audio.js is not part of this model): its calls become `Event`s.
- `localStorage`: writes become `HiScoreSaved` events. The stored high score is an `Option<int>`. A stored value that is not an integer is not modelled.
- `preventDefault` on key events: it affects only the browser.
- `requestAnimationFrame` scheduling: `Session.Frame` is one call of `loop`, and the caller chains the frames.
- `angleToVector` and `choice` in js/math.js: nothing in the core calls them.
- `pendingRespawn`: it is written once and never read.
- Floating point: all numbers are mathematical reals. `Math.cos`, `Math.sin`, `Math.hypot` and `Math.pow` are the parameters of `Env`, whose `Valid()` lists the only facts used about them.
- GameMath.Trunc: does not model the 32-bit wrap-around of the bitwise or with 0, because it only ever sees radius / 4 and a draw times 5.
- Waves.SpawnWave: the retry loop is bounded by `fuel`. `None` stands for a run that would still be retrying, so nothing is promised about the length of a finished run beyond the count.
- Session.ResetGame: it inherits the fuel bound of the spawner and returns `None` where the source would loop.
- Session.Cleanup: it inherits the fuel bound of the spawner.
- Session.Frame: it inherits the fuel bound of the spawner. It also requires a non-negative speed limit, which every ship the game creates has.
- Ships.ClampSpeed: requires a non-negative speed limit. The game's limit is 420, and a negative limit would flip the velocity.
- Ships.UpdateShip: requires a non-negative speed limit, as ClampSpeed does.
- Session.Update: requires a non-negative speed limit. Its own ensures give only the scene. The counters, bullets and rocks are stated by Session.UpdateOutcome, Session.UpdateGameOver, Session.UpdateNewWave and Session.UpdateKeepsInv, which assume the invariant.
- Particles.Explode: the count is stated only for a non-negative radius. Every radius in the game is positive.
