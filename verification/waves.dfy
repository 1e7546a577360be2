/** The wave spawner of js/systems/waves.js: a batch of large rocks placed on
    the screen edges, away from the ship.

    The JavaScript retries a rejected edge point for as long as it takes. Here
    every candidate point costs one unit of `fuel`, and `None` stands for a run
    that would still be retrying when the fuel is spent. */
module Waves {
  import opened GameMath
  import opened Wrappers
  import opened Asteroids

  /** No rock may appear within this distance of the ship. */
  const SafeDistance: real := 150.0

  /** `3 + Math.min(6, wave)`: the number of rocks in a wave. */
  function WaveSize(wave: int): (n: int)
    ensures wave == 1 ==> n == 4
    ensures wave >= 6 ==> n == 9
    ensures wave <= 6 ==> n == wave + 3
    ensures n <= 9
    ensures 1 <= wave ==> 4 <= n
  {
    3 + (if 6 <= wave then 6 else wave)
  }

  /** A point on the border of the field: on the left or right edge with its y
      inside the field, or on the top or bottom edge with its x inside. */
  predicate OnEdge(x: real, y: real, width: real, height: real) {
    ((x == 0.0 || x == width) && 0.0 <= y <= height) ||
    ((y == 0.0 || y == height) && 0.0 <= x <= width)
  }

  /** The candidate point for the draws `side` and `along`: left, right, top or
      bottom edge by quarters of `side`, and `along` times the edge length. */
  function EdgePoint(side: real, along: real, width: real, height: real): (p: Vec)
    ensures p.x == 0.0 || p.x == width || p.y == 0.0 || p.y == height
    ensures 0.0 <= along < 1.0 && 0.0 <= width && 0.0 <= height ==> OnEdge(p.x, p.y, width, height)
  {
    AlongEdge(along, width);
    AlongEdge(along, height);
    if side < 0.25 then Vec(0.0, along * height)
    else if side < 0.5 then Vec(width, along * height)
    else if side < 0.75 then Vec(along * width, 0.0)
    else Vec(along * width, height)
  }

  /** A fraction in [0, 1) of an edge length lies on the edge. */
  lemma AlongEdge(along: real, size: real)
    ensures 0.0 <= along < 1.0 && 0.0 <= size ==> 0.0 <= Mul(along, size) <= size
  {
    if 0.0 <= along < 1.0 && 0.0 <= size {
      NonNegativeProduct(along, size);
      NonNegativeProduct(1.0 - along, size);
    }
  }

  /** The candidate is rejected: strictly closer than 150 to the ship. */
  predicate TooClose(x: real, y: real, shipX: real, shipY: real) {
    Dist2(x, y, shipX, shipY) < SafeDistance * SafeDistance
  }

  /** What every rock a wave adds satisfies. */
  predicate Spawned(a: Asteroid, shipX: real, shipY: real, width: real, height: real) {
    OnEdge(a.x, a.y, width, height) && !TooClose(a.x, a.y, shipX, shipY) &&
    42.0 <= a.radius < 52.0 && a.scoreValue == 20 && !a.dead
  }

  /** The loop body, run until `remaining` rocks have been placed: two draws per
      candidate, then for an accepted one the radius draw and createAsteroid. */
  function SpawnFrom(rocks: seq<Asteroid>, remaining: nat, shipX: real, shipY: real,
                     width: real, height: real, env: Env, pos: nat, fuel: nat): (d: Option<Drawn<seq<Asteroid>>>)
    requires env.Valid()
    requires 0.0 <= width && 0.0 <= height
    ensures remaining == 0 ==> d == Some(Drawn(rocks, pos))
    ensures d.Some? ==>
      |d.value.value| == |rocks| + remaining && d.value.value[..|rocks|] == rocks &&
      forall i :: |rocks| <= i < |d.value.value| ==> Spawned(d.value.value[i], shipX, shipY, width, height)
    decreases fuel
  {
    if remaining == 0 then Some(Drawn(rocks, pos))
    else if fuel == 0 then None
    else
      var p := EdgePoint(env.random(pos), env.random(pos + 1), width, height);
      if TooClose(p.x, p.y, shipX, shipY) then
        SpawnFrom(rocks, remaining, shipX, shipY, width, height, env, pos + 2, fuel - 1)
      else
        var radius := 42.0 + env.random(pos + 2) * 10.0;
        var a := CreateAsteroid(p.x, p.y, radius, env, pos + 3);
        var more := rocks + [a.value];
        var rest := SpawnFrom(more, remaining - 1, shipX, shipY, width, height, env, a.pos, fuel - 1);
        assert rest.Some? ==> rest.value.value[..|rocks|] == rest.value.value[..|more|][..|rocks|];
        rest
  }

  /** spawnWave(game, width, height): appends 3 + min(6, wave) rocks after the
      existing ones, which are kept unchanged. */
  function SpawnWave(rocks: seq<Asteroid>, wave: int, shipX: real, shipY: real,
                     width: real, height: real, env: Env, pos: nat, fuel: nat): (d: Option<Drawn<seq<Asteroid>>>)
    requires env.Valid()
    requires 0.0 <= width && 0.0 <= height
    ensures d.Some? && -3 <= wave ==> |d.value.value| == |rocks| + WaveSize(wave)
    ensures d.Some? ==>
      |rocks| <= |d.value.value| && d.value.value[..|rocks|] == rocks &&
      forall i :: |rocks| <= i < |d.value.value| ==> Spawned(d.value.value[i], shipX, shipY, width, height)
  {
    var n := WaveSize(wave);
    SpawnFrom(rocks, if n < 0 then 0 else n, shipX, shipY, width, height, env, pos, fuel)
  }

  /** A component of a point inside [0, size] differs from the centre by at most size / 2. */
  lemma HalfSquare(v: real, size: real)
    requires 0.0 <= v <= size
    ensures Mul(v - size / 2.0, v - size / 2.0) <= Mul(size / 2.0, size / 2.0)
  {
    var d := v - size / 2.0;
    var m := size / 2.0;
    NonNegativeProduct(m - d, m + d);
    assert Mul(m - d, m + d) == m * m - d * d;
  }

  lemma SquareMonotone(a: real, b: real)
    requires 0.0 <= a <= b
    ensures Mul(a, a) <= Mul(b, b)
  {
    NonNegativeProduct(b - a, b + a);
    assert Mul(b - a, b + a) == b * b - a * a;
  }

  /** In a field no larger than 200 by 200 with the ship at its centre, every
      edge point is too close, so no rock is ever placed and no amount of retrying
      finishes the wave: the JavaScript loop would never end. */
  lemma {:induction false} SmallFieldNeverSpawns(rocks: seq<Asteroid>, remaining: nat,
      width: real, height: real, env: Env, pos: nat, fuel: nat)
    requires env.Valid()
    requires 0.0 <= width <= 200.0 && 0.0 <= height <= 200.0
    requires 0 < remaining
    ensures SpawnFrom(rocks, remaining, width / 2.0, height / 2.0, width, height, env, pos, fuel).None?
    decreases fuel
  {
    if fuel > 0 {
      var p := EdgePoint(env.random(pos), env.random(pos + 1), width, height);
      assert OnEdge(p.x, p.y, width, height);
      SmallFieldTooClose(p.x, p.y, width, height);
      SmallFieldNeverSpawns(rocks, remaining, width, height, env, pos + 2, fuel - 1);
    }
  }

  /** In a field no larger than 200 by 200, every point of the field lies within
      150 of its centre. */
  lemma SmallFieldTooClose(x: real, y: real, width: real, height: real)
    requires 0.0 <= width <= 200.0 && 0.0 <= height <= 200.0
    requires 0.0 <= x <= width && 0.0 <= y <= height
    ensures TooClose(x, y, width / 2.0, height / 2.0)
  {
    HalfSquare(x, width);
    HalfSquare(y, height);
    SquareMonotone(width / 2.0, 100.0);
    SquareMonotone(height / 2.0, 100.0);
    var dx, dy := x - width / 2.0, y - height / 2.0;
    assert Dist2(x, y, width / 2.0, height / 2.0) == Mul(dx, dx) + Mul(dy, dy);
  }

  /** No point of the field's border is too close to the ship. */
  ghost predicate EdgesClear(shipX: real, shipY: real, width: real, height: real) {
    forall x, y :: OnEdge(x, y, width, height) ==> !TooClose(x, y, shipX, shipY)
  }

  /** The candidate drawn at `pos`. */
  function Candidate(width: real, height: real, env: Env, pos: nat): Vec {
    EdgePoint(env.random(pos), env.random(pos + 1), width, height)
  }

  /** An accepted candidate becomes the next rock, and the spawner carries on
      from the draw after it with one rock fewer to place. */
  lemma AcceptedStep(rocks: seq<Asteroid>, remaining: nat, shipX: real, shipY: real,
      width: real, height: real, env: Env, pos: nat, fuel: nat, p: Vec, a: Drawn<Asteroid>)
    requires env.Valid()
    requires 0.0 <= width && 0.0 <= height
    requires 0 < remaining && 0 < fuel
    requires p == EdgePoint(env.random(pos), env.random(pos + 1), width, height)
    requires !TooClose(p.x, p.y, shipX, shipY)
    requires a == CreateAsteroid(p.x, p.y, 42.0 + env.random(pos + 2) * 10.0, env, pos + 3)
    ensures SpawnFrom(rocks, remaining, shipX, shipY, width, height, env, pos, fuel) ==
      SpawnFrom(rocks + [a.value], remaining - 1, shipX, shipY, width, height, env, a.pos, fuel - 1)
  {
  }

  /** Every candidate the draws from `pos` on can produce is accepted. */
  ghost predicate AllAccepted(shipX: real, shipY: real, width: real, height: real, env: Env, pos: nat) {
    forall i: nat :: pos <= i ==>
      !TooClose(Candidate(width, height, env, i).x, Candidate(width, height, env, i).y, shipX, shipY)
  }

  /** When every candidate is accepted, one unit of fuel per rock is enough
      for the spawner to finish. */
  lemma {:induction false} AcceptedSpawn(rocks: seq<Asteroid>, remaining: nat, shipX: real, shipY: real,
      width: real, height: real, env: Env, pos: nat, fuel: nat)
    requires env.Valid()
    requires 0.0 <= width && 0.0 <= height
    requires AllAccepted(shipX, shipY, width, height, env, pos)
    requires remaining <= fuel
    ensures SpawnFrom(rocks, remaining, shipX, shipY, width, height, env, pos, fuel).Some?
    decreases remaining
  {
    if remaining > 0 {
      var p := Candidate(width, height, env, pos);
      assert !TooClose(p.x, p.y, shipX, shipY);
      var a := CreateAsteroid(p.x, p.y, 42.0 + env.random(pos + 2) * 10.0, env, pos + 3);
      AcceptedStep(rocks, remaining, shipX, shipY, width, height, env, pos, fuel, p, a);
      AcceptedLater(shipX, shipY, width, height, env, pos, a.pos);
      AcceptedSpawn(rocks + [a.value], remaining - 1, shipX, shipY, width, height, env, a.pos, fuel - 1);
    }
  }

  /** Acceptance of every candidate from `pos` on covers every later cursor. */
  lemma AcceptedLater(shipX: real, shipY: real, width: real, height: real, env: Env, pos: nat, later: nat)
    requires AllAccepted(shipX, shipY, width, height, env, pos) && pos <= later
    ensures AllAccepted(shipX, shipY, width, height, env, later)
  {
  }

  /** When the whole border is clear of the ship, every candidate is accepted. */
  lemma ClearEdgesAccept(shipX: real, shipY: real, width: real, height: real, env: Env, pos: nat)
    requires env.Valid()
    requires 0.0 <= width && 0.0 <= height
    requires EdgesClear(shipX, shipY, width, height)
    ensures AllAccepted(shipX, shipY, width, height, env, pos)
  {
    forall i: nat | pos <= i
      ensures !TooClose(Candidate(width, height, env, i).x, Candidate(width, height, env, i).y, shipX, shipY)
    {
      var p := Candidate(width, height, env, i);
      assert OnEdge(p.x, p.y, width, height);
    }
  }

  /** A ship at least 150 away from each of the four edge lines has the whole
      border at least 150 away. */
  lemma InnerShipClear(shipX: real, shipY: real, width: real, height: real)
    requires 150.0 <= shipX <= width - 150.0 && 150.0 <= shipY <= height - 150.0
    ensures EdgesClear(shipX, shipY, width, height)
  {
    forall x, y | OnEdge(x, y, width, height)
      ensures !TooClose(x, y, shipX, shipY)
    {
      OutOfReach(x, y, shipX, shipY);
    }
  }

  /** A point at least 150 away from the ship along either axis is not too close. */
  lemma OutOfReach(x: real, y: real, shipX: real, shipY: real)
    requires x - shipX <= -150.0 || 150.0 <= x - shipX || y - shipY <= -150.0 || 150.0 <= y - shipY
    ensures !TooClose(x, y, shipX, shipY)
  {
    var dx, dy := x - shipX, y - shipY;
    SquareNonNegative(dx);
    SquareNonNegative(dy);
    if dx <= -150.0 || 150.0 <= dx {
      AbsSquareAtLeast(dx);
    } else {
      AbsSquareAtLeast(dy);
    }
    assert Dist2(x, y, shipX, shipY) == Mul(dx, dx) + Mul(dy, dy);
  }

  lemma AbsSquareAtLeast(d: real)
    requires d <= -150.0 || 150.0 <= d
    ensures 22500.0 <= Mul(d, d)
  {
    if d < 0.0 {
      SquareMonotone(150.0, -d);
      assert Mul(-d, -d) == Mul(d, d);
    } else {
      SquareMonotone(150.0, d);
    }
  }

  /** A window at least 300 by 300 with the ship at its centre has its whole
      border at least 150 away from the ship. */
  lemma CentredLargeFieldClear(width: real, height: real)
    requires 300.0 <= width && 300.0 <= height
    ensures EdgesClear(width / 2.0, height / 2.0, width, height)
  {
    InnerShipClear(width / 2.0, height / 2.0, width, height);
  }

  /** Every point of the border is too close to the ship. */
  ghost predicate EdgesBlocked(shipX: real, shipY: real, width: real, height: real) {
    forall x, y :: OnEdge(x, y, width, height) ==> TooClose(x, y, shipX, shipY)
  }

  /** When the whole border is too close to the ship, every candidate is
      rejected and the spawner never finishes, whatever the fuel. */
  lemma {:induction false} BlockedNeverSpawns(rocks: seq<Asteroid>, remaining: nat, shipX: real, shipY: real,
      width: real, height: real, env: Env, pos: nat, fuel: nat)
    requires env.Valid()
    requires 0.0 <= width && 0.0 <= height
    requires EdgesBlocked(shipX, shipY, width, height)
    requires 0 < remaining
    ensures SpawnFrom(rocks, remaining, shipX, shipY, width, height, env, pos, fuel).None?
    decreases fuel
  {
    if fuel > 0 {
      var p := EdgePoint(env.random(pos), env.random(pos + 1), width, height);
      assert OnEdge(p.x, p.y, width, height);
      BlockedNeverSpawns(rocks, remaining, shipX, shipY, width, height, env, pos + 2, fuel - 1);
    }
  }

  /** A point within 100 of the ship on both axes is too close to it. */
  lemma WithinReach(x: real, y: real, shipX: real, shipY: real)
    requires -100.0 <= x - shipX <= 100.0 && -100.0 <= y - shipY <= 100.0
    ensures TooClose(x, y, shipX, shipY)
  {
    var dx, dy := x - shipX, y - shipY;
    AbsSquareBound(dx);
    AbsSquareBound(dy);
    assert Dist2(x, y, shipX, shipY) == Mul(dx, dx) + Mul(dy, dy);
  }

  lemma AbsSquareBound(d: real)
    requires -100.0 <= d <= 100.0
    ensures Mul(d, d) <= 10000.0
  {
    if d < 0.0 {
      SquareMonotone(-d, 100.0);
      assert Mul(-d, -d) == Mul(d, d);
    } else {
      SquareMonotone(d, 100.0);
    }
  }

  /** In a window at least 300 by 300 with the ship at its centre, a wave is
      always placed when the fuel covers one candidate per rock. */
  lemma LargeFieldSpawns(rocks: seq<Asteroid>, wave: int, width: real, height: real,
      env: Env, pos: nat, fuel: nat)
    requires env.Valid()
    requires 300.0 <= width && 300.0 <= height
    requires WaveSize(wave) <= fuel
    ensures var d := SpawnWave(rocks, wave, width / 2.0, height / 2.0, width, height, env, pos, fuel);
      d.Some? && (-3 <= wave ==> |d.value.value| == |rocks| + WaveSize(wave))
  {
    CentredLargeFieldClear(width, height);
    ClearEdgesAccept(width / 2.0, height / 2.0, width, height, env, pos);
    var n := WaveSize(wave);
    AcceptedSpawn(rocks, if n < 0 then 0 else n, width / 2.0, height / 2.0, width, height, env, pos, fuel);
  }
}
