/** Scalar helpers of js/math.js, and the numeric world the game draws on.

    The game calls Math.random, Math.cos, Math.sin, Math.hypot and Math.pow.
    None of them is computed here: an `Env` value supplies them, and
    `Env.Valid()` states the mathematical facts the game relies on. Random
    draws form one stream read through a cursor `pos`, so every operation
    consumes draws in the same order as the JavaScript does. */
module GameMath {

  /** Math.PI, as the nearest decimal the double prints as. */
  const PI: real := 3.141592653589793
  const TAU: real := 2.0 * PI

  function Min(a: real, b: real): real { if a <= b then a else b }
  function Max(a: real, b: real): real { if a >= b then a else b }

  /** The host's numeric functions. `random(i)` is the i-th value Math.random() returns. */
  datatype Env = Env(
    random: nat -> real,
    cos: real -> real,
    sin: real -> real,
    hypot: (real, real) -> real,
    pow: (real, real) -> real)
  {
    ghost predicate Valid() {
      (forall i: nat :: 0.0 <= random(i) < 1.0) &&
      (forall t :: cos(t) * cos(t) + sin(t) * sin(t) == 1.0) &&
      (forall x, y :: hypot(x, y) >= 0.0 && hypot(x, y) * hypot(x, y) == x * x + y * y) &&
      (forall b, e :: 0.0 < b <= 1.0 && 0.0 <= e ==> 0.0 < pow(b, e) <= 1.0)
    }
  }

  /** A value built from random draws, with the cursor of the next unused draw. */
  datatype Drawn<+T> = Drawn(value: T, pos: nat)

  /** A plane vector: a position, a velocity or a heading. */
  datatype Vec = Vec(x: real, y: real) {
    function Norm2(): real { x * x + y * y }
  }

  /** clamp(v, min, max) = max(min, min(max, v)). */
  function Clamp(v: real, lo: real, hi: real): (r: real)
    ensures lo <= r
    ensures lo <= hi ==> lo <= r <= hi
    ensures lo <= v <= hi ==> r == v
    ensures lo <= hi && v < lo ==> r == lo
    ensures lo <= hi && hi < v ==> r == hi
  {
    Max(lo, Min(hi, v))
  }

  /** One toroidal correction: a single shift by the field size, never a modulo. */
  function Wrap(v: real, size: real): (r: real)
    ensures 0.0 <= v < size ==> r == v
    ensures r == v || r == v + size || r == v - size
    ensures 0.0 < size && -size <= v < 2.0 * size ==> 0.0 <= r < size
  {
    if v < 0.0 then v + size
    else if v >= size then v - size
    else v
  }

  /** Integrate one coordinate over `dt` and wrap it, as every entity update does. */
  function Drift(p: real, v: real, dt: real, size: real): real {
    Wrap(p + v * dt, size)
  }

  /** A coordinate inside the field that moves by less than one field size stays inside. */
  lemma DriftStaysInField(p: real, v: real, dt: real, size: real)
    requires 0.0 <= p < size
    requires -size <= Mul(v, dt) < size
    ensures 0.0 <= Drift(p, v, dt, size) < size
  {
  }

  function Dist2(x1: real, y1: real, x2: real, y2: real): (r: real)
    ensures r >= 0.0
    ensures x1 == x2 && y1 == y2 ==> r == 0.0
  {
    var dx := x1 - x2;
    var dy := y1 - y2;
    SquareNonNegative(dx);
    SquareNonNegative(dy);
    dx * dx + dy * dy
  }

  /** Multiplication as a function symbol, so that facts about a product proved
      in a helper lemma carry over to the caller's product of the same values. */
  function Mul(a: real, b: real): real { a * b }

  lemma SquareNonNegative(a: real)
    ensures 0.0 <= Mul(a, a)
  {
    if a < 0.0 {
      assert (-a) * (-a) == a * a;
    }
  }

  lemma PositiveProduct(a: real, b: real)
    requires 0.0 < a && 0.0 < b
    ensures 0.0 < Mul(a, b)
  {
  }

  lemma NonNegativeProduct(a: real, b: real)
    requires 0.0 <= a && 0.0 <= b
    ensures 0.0 <= Mul(a, b)
  {
  }

  lemma Dist2Symmetric(x1: real, y1: real, x2: real, y2: real)
    ensures Dist2(x1, y1, x2, y2) == Dist2(x2, y2, x1, y1)
  {
  }

  /** randRange(min, max) with the Math.random() draw `u` made explicit. */
  function RandRange(lo: real, hi: real, u: real): (r: real)
    ensures 0.0 <= u < 1.0 && lo < hi ==> lo <= r < hi
    ensures u == 0.0 ==> r == lo
  {
    RandRangeBounds(lo, hi, u);
    lo + u * (hi - lo)
  }

  lemma RandRangeBounds(lo: real, hi: real, u: real)
    ensures 0.0 <= u < 1.0 && lo < hi ==> lo <= lo + Mul(u, hi - lo) < hi
  {
    if 0.0 <= u < 1.0 && lo < hi {
      PositiveProduct(1.0 - u, hi - lo);
      NonNegativeProduct(u, hi - lo);
    }
  }

  /** A length `k` along a unit heading (c, n): the vector has length |k| and
      its projection on the heading is k. */
  lemma UnitScaled(c: real, n: real, k: real)
    requires c * c + n * n == 1.0
    ensures Mul(c * k, c * k) + Mul(n * k, n * k) == Mul(k, k)
    ensures Mul(c * k, c) + Mul(n * k, n) == k
  {
    assert (c * k) * (c * k) == (c * c) * (k * k);
    assert (n * k) * (n * k) == (n * n) * (k * k);
    assert (c * c) * (k * k) + (n * n) * (k * k) == (c * c + n * n) * (k * k);
    assert (c * k) * c == (c * c) * k;
    assert (n * k) * n == (n * n) * k;
    assert (c * c) * k + (n * n) * k == (c * c + n * n) * k;
  }

  /** JavaScript's `x | 0` on a value within 32-bit range: truncation toward zero. */
  function Trunc(x: real): (n: int)
    ensures 0.0 <= x ==> 0 <= n && n as real <= x < n as real + 1.0
    ensures x < 0.0 ==> n <= 0 && n as real - 1.0 < x <= n as real
  {
    if x >= 0.0 then x.Floor else -((-x).Floor)
  }
}
