/** The collision detector of js/systems/collisions.js: circle-against-circle
    tests on raw (unwrapped) coordinates. It only reports; it changes nothing. */
module Collisions {
  import opened GameMath
  import opened Wrappers
  import opened Asteroids
  import opened Bullets
  import opened Ships

  /** A bullet index paired with the asteroid index it struck. */
  datatype Hit = Hit(bullet: nat, asteroid: nat)

  datatype Report = Report(hits: seq<Hit>, shipCrash: bool)

  /** Two circles overlap or touch: squared centre distance at most the squared
      sum of the radii. */
  predicate Overlaps(x1: real, y1: real, r1: real, x2: real, y2: real, r2: real) {
    Dist2(x1, y1, x2, y2) <= (r1 + r2) * (r1 + r2)
  }

  predicate BulletTouches(b: Bullet, a: Asteroid) {
    Overlaps(b.x, b.y, b.r, a.x, a.y, a.radius)
  }

  predicate ShipTouches(s: Ship, a: Asteroid) {
    Overlaps(s.x, s.y, s.radius, a.x, a.y, a.radius)
  }

  /** A bullet takes part in the test only while it is not dead and has time left. */
  predicate Live(b: Bullet) {
    !b.dead && b.ttl > 0.0
  }

  /** A live asteroid this bullet overlaps. */
  predicate Target(b: Bullet, a: Asteroid) {
    !a.dead && BulletTouches(b, a)
  }

  /** The inner loop: the first asteroid at index `j` or later that is not dead
      and overlaps the bullet (the loop breaks there). */
  function FirstTarget(b: Bullet, rocks: seq<Asteroid>, j: nat): (t: Option<nat>)
    requires j <= |rocks|
    ensures t.Some? ==>
      j <= t.value < |rocks| && Target(b, rocks[t.value]) &&
      forall k :: j <= k < t.value ==> !Target(b, rocks[k])
    ensures t.None? ==> forall k :: j <= k < |rocks| ==> !Target(b, rocks[k])
    decreases |rocks| - j
  {
    if j == |rocks| then None
    else if Target(b, rocks[j]) then Some(j)
    else FirstTarget(b, rocks, j + 1)
  }

  /** The outer loop from bullet `i` on: at most one hit per live bullet, listed
      in bullet order. Each hit pairs a live bullet with the lowest-index live
      asteroid it overlaps. */
  function HitsFrom(shots: seq<Bullet>, rocks: seq<Asteroid>, i: nat): (hits: seq<Hit>)
    requires i <= |shots|
    ensures forall h :: 0 <= h < |hits| ==>
      i <= hits[h].bullet < |shots| && hits[h].asteroid < |rocks|
    ensures forall h, g :: 0 <= h < g < |hits| ==> hits[h].bullet < hits[g].bullet
    ensures forall h :: 0 <= h < |hits| ==> FirstMatch(shots, rocks, hits[h])
    decreases |shots| - i
  {
    if i == |shots| then []
    else
      var rest := HitsFrom(shots, rocks, i + 1);
      if !Live(shots[i]) then rest
      else match FirstTarget(shots[i], rocks, 0)
        case None => rest
        case Some(j) => [Hit(i, j)] + rest
  }

  /** A hit as the detector reports it: a live bullet, a live asteroid it
      overlaps, and no live overlapping asteroid at a lower index. */
  predicate FirstMatch(shots: seq<Bullet>, rocks: seq<Asteroid>, hit: Hit) {
    hit.bullet < |shots| && hit.asteroid < |rocks| &&
    Live(shots[hit.bullet]) && Target(shots[hit.bullet], rocks[hit.asteroid]) &&
    forall k :: 0 <= k < hit.asteroid ==> !Target(shots[hit.bullet], rocks[k])
  }

  /** Bullet `b` appears in the list of hits. */
  predicate Reported(hits: seq<Hit>, b: nat) {
    exists h :: 0 <= h < |hits| && hits[h].bullet == b
  }

  /** The bullet at index `b` is live and overlaps some live asteroid. */
  predicate Struck(shots: seq<Bullet>, rocks: seq<Asteroid>, b: nat)
    requires b < |shots|
  {
    Live(shots[b]) && exists k :: 0 <= k < |rocks| && Target(shots[b], rocks[k])
  }

  /** Whether some asteroid at index `j` or later overlaps the ship. Dead
      asteroids are not skipped here. */
  function AnyTouchesShip(s: Ship, rocks: seq<Asteroid>, j: nat): (crash: bool)
    requires j <= |rocks|
    ensures crash <==> exists k :: j <= k < |rocks| && ShipTouches(s, rocks[k])
    decreases |rocks| - j
  {
    if j == |rocks| then false
    else ShipTouches(s, rocks[j]) || AnyTouchesShip(s, rocks, j + 1)
  }

  /** checkCollisions(game). */
  function CheckCollisions(shots: seq<Bullet>, rocks: seq<Asteroid>, ship: Ship): (r: Report)
    // every index is in range, and bullets appear in strictly increasing order
    ensures forall h :: 0 <= h < |r.hits| ==>
      r.hits[h].bullet < |shots| && r.hits[h].asteroid < |rocks|
    ensures forall h, g :: 0 <= h < g < |r.hits| ==> r.hits[h].bullet < r.hits[g].bullet
    // the ship is never hit while invulnerable
    ensures ship.invuln > 0.0 ==> !r.shipCrash
    ensures ship.invuln <= 0.0 ==>
      (r.shipCrash <==> exists k :: 0 <= k < |rocks| && ShipTouches(ship, rocks[k]))
  {
    Report(HitsFrom(shots, rocks, 0), ship.invuln <= 0.0 && AnyTouchesShip(ship, rocks, 0))
  }

  /** A bullet is reported exactly when it is live and overlaps a live asteroid:
      a live bullet with no hit overlaps no live asteroid. */
  lemma ReportedIffStruck(shots: seq<Bullet>, rocks: seq<Asteroid>, i: nat)
    requires i <= |shots|
    ensures forall b :: i <= b < |shots| ==>
      (Reported(HitsFrom(shots, rocks, i), b) <==> Struck(shots, rocks, b))
  {
    forall b | i <= b < |shots|
      ensures Reported(HitsFrom(shots, rocks, i), b) <==> Struck(shots, rocks, b)
    {
      ReportedAt(shots, rocks, i, b);
    }
  }

  /** The same for one bullet, by induction on where the outer loop starts. */
  lemma {:induction false} ReportedAt(shots: seq<Bullet>, rocks: seq<Asteroid>, i: nat, b: nat)
    requires i <= b < |shots|
    ensures Reported(HitsFrom(shots, rocks, i), b) <==> Struck(shots, rocks, b)
    decreases |shots| - i
  {
    var hits := HitsFrom(shots, rocks, i);
    var rest := HitsFrom(shots, rocks, i + 1);
    var t := FirstTarget(shots[i], rocks, 0);
    if Live(shots[i]) && t.Some? {
      assert hits == [Hit(i, t.value)] + rest;
      if b == i {
        assert hits[0].bullet == b;
        assert Target(shots[i], rocks[t.value]);
      } else {
        ReportedAt(shots, rocks, i + 1, b);
        ReportedPastHead(Hit(i, t.value), rest, b);
      }
    } else {
      assert hits == rest;
      if b == i {
        assert !Reported(rest, b);
      } else {
        ReportedAt(shots, rocks, i + 1, b);
      }
    }
  }

  /** A hit at the head of the list that names another bullet does not change
      whether `b` is reported. */
  lemma ReportedPastHead(head: Hit, rest: seq<Hit>, b: nat)
    requires head.bullet != b
    ensures Reported([head] + rest, b) <==> Reported(rest, b)
  {
    var hits := [head] + rest;
    if Reported(rest, b) {
      var h :| 0 <= h < |rest| && rest[h].bullet == b;
      assert hits[h + 1] == rest[h];
    }
    if Reported(hits, b) {
      var h :| 0 <= h < |hits| && hits[h].bullet == b;
      assert rest[h - 1] == hits[h];
    }
  }

  /** checkCollisions reports exactly the struck bullets, each with its first
      live target. */
  lemma CheckCollisionsMeaning(shots: seq<Bullet>, rocks: seq<Asteroid>, ship: Ship)
    ensures var r := CheckCollisions(shots, rocks, ship);
      (forall h :: 0 <= h < |r.hits| ==> FirstMatch(shots, rocks, r.hits[h])) &&
      forall b :: 0 <= b < |shots| ==> (Reported(r.hits, b) <==> Struck(shots, rocks, b))
  {
    ReportedIffStruck(shots, rocks, 0);
  }

  /** The same asteroid can be reported twice in one tick: two live bullets on
      top of one live rock both register a hit on it. */
  lemma SameAsteroidTwice(b: Bullet, a: Asteroid, s: Ship)
    requires Live(b) && Target(b, a)
    ensures CheckCollisions([b, b], [a], s).hits == [Hit(0, 0), Hit(1, 0)]
  {
    assert FirstTarget(b, [a], 0) == Some(0);
    assert HitsFrom([b, b], [a], 2) == [];
    assert HitsFrom([b, b], [a], 1) == [Hit(1, 0)];
  }
}
