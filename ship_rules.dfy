/**
 * The rules that domain/ship.py applies to a ship on every tick, as
 * functions of values: the heading after the turn keys and the modulo, the
 * velocity after a thrust impulse and the speed clamp, the screen wrap of one
 * axis, and the ageing of the trail buffer. The class in ship.dfy changes its
 * fields step by step and is specified by these functions; the lemmas here
 * state what the steps promise.
 */
module ShipRules {
  import opened Vectors

  /** The keys held during a tick: K_a turns left, K_d turns right, K_w thrusts. */
  datatype Keys = Keys(left: bool, right: bool, thrust: bool)

  const NoKeys: Keys := Keys(false, false, false)

  /** A trail particle: where the ship was and how many seconds it has left to live. */
  datatype TrailEntry = TrailEntry(pos: Vec2, life: real)

  // ---------------------------------------------------------------- Heading

  /** `a` and `b` differ by a whole number of full turns. */
  predicate SameTurn(a: real, b: real) {
    ((a - b) / 360.0).Floor as real == (a - b) / 360.0
  }

  /**
   * Python's `angle % 360` on a float: the floored modulo, whose result has
   * the sign of the divisor, so it is never negative.
   */
  function Mod360(a: real): (r: real)
    ensures 0.0 <= r < 360.0
    ensures SameTurn(r, a)
    ensures 0.0 <= a < 360.0 ==> r == a
  {
    var q := (a / 360.0).Floor;
    WholeTurns(a - 360.0 * q as real, a, -q);
    a - 360.0 * q as real
  }

  /** Two angles `n` full turns apart are on the same turn. */
  lemma WholeTurns(a: real, b: real, n: int)
    requires a - b == 360.0 * n as real
    ensures SameTurn(a, b)
  {
    assert (a - b) / 360.0 == n as real;
  }

  /** The result of Mod360 is the ONLY angle in [0, 360) on the same turn as `a`. */
  lemma Mod360Unique(a: real, r: real)
    requires 0.0 <= r < 360.0
    requires SameTurn(r, a)
    ensures r == Mod360(a)
  {
    var m := Mod360(a);
    var k := ((r - a) / 360.0).Floor;
    var j := ((m - a) / 360.0).Floor;
    assert r == a + 360.0 * k as real;
    assert m == a + 360.0 * j as real;
    assert r - m == 360.0 * (k - j) as real;
    assert -1 < k - j < 1;
  }

  /** Adding whole turns does not change the normalised heading. */
  lemma Mod360Periodic(a: real, n: int)
    ensures Mod360(a + 360.0 * n as real) == Mod360(a)
  {
    var b := a + 360.0 * n as real;
    var m := Mod360(a);
    var k := ((m - a) / 360.0).Floor;
    assert m - b == 360.0 * (k - n) as real;
    assert (m - b) / 360.0 == (k - n) as real;
    Mod360Unique(b, m);
  }

  /**
   * The heading before normalisation: K_a subtracts `rotationSpeed * dt`,
   * then K_d adds it.
   */
  function Turned(angle: real, keys: Keys, rotationSpeed: real, dt: real): (r: real)
    ensures keys.left == keys.right ==> r == angle
    ensures keys.left && !keys.right ==> r == angle - rotationSpeed * dt
    ensures keys.right && !keys.left ==> r == angle + rotationSpeed * dt
  {
    var a := if keys.left then angle - rotationSpeed * dt else angle;
    if keys.right then a + rotationSpeed * dt else a
  }

  // --------------------------------------------------------------- Velocity

  /**
   * The thrust impulse `dir * thrust` added to `vel`, followed by the clamp:
   * a velocity longer than `maxSpeed` is rescaled to length `maxSpeed`.
   * Stated on squared lengths: within the bound nothing is clamped, beyond
   * it the result has length exactly `maxSpeed` and the direction of the
   * unclamped sum.
   */
  function Thrusted(vel: Vec2, dir: Vec2, thrust: real, maxSpeed: real, sqrt: real -> real): (r: Vec2)
    requires IsSqrt(sqrt) && 0.0 <= maxSpeed
    ensures r.LengthSq() <= maxSpeed * maxSpeed
    ensures vel.Add(dir.Scale(thrust)).LengthSq() <= maxSpeed * maxSpeed ==> r == vel.Add(dir.Scale(thrust))
    ensures maxSpeed * maxSpeed < vel.Add(dir.Scale(thrust)).LengthSq() ==>
              r.LengthSq() == maxSpeed * maxSpeed && SameDirection(r, vel.Add(dir.Scale(thrust)))
  {
    var v := vel.Add(dir.Scale(thrust));
    var n := Length(v, sqrt);
    SquareMonotone(n, maxSpeed);
    SquareMonotone(maxSpeed, n);
    if n > maxSpeed then ScaleToLength(v, maxSpeed, sqrt) else v
  }

  // -------------------------------------------------------------------- Wrap

  /**
   * The wrap of one axis against the screen extent, with strict tests: a
   * coordinate below 0 moves to the far edge, one beyond the extent moves to
   * 0, and everything in between, both edges included, stays.
   */
  function WrapAxis(c: real, extent: real): (r: real)
    ensures 0.0 <= extent ==> 0.0 <= r <= extent
    ensures 0.0 <= c <= extent ==> r == c
    ensures c < 0.0 ==> r == extent
    ensures 0.0 <= c && extent < c ==> r == 0.0
  {
    if c < 0.0 then extent
    else if c > extent then 0.0
    else c
  }

  /** A wrapped coordinate is not wrapped again. */
  lemma WrapAxisIdempotent(c: real, extent: real)
    requires 0.0 <= extent
    ensures WrapAxis(WrapAxis(c, extent), extent) == WrapAxis(c, extent)
  {
  }

  /** Both axes wrapped, each on its own. */
  function Wrapped(p: Vec2, width: real, height: real): (r: Vec2)
    ensures r.x == WrapAxis(p.x, width) && r.y == WrapAxis(p.y, height)
    ensures 0.0 <= width && 0.0 <= height ==> 0.0 <= r.x <= width && 0.0 <= r.y <= height
  {
    Vec2(WrapAxis(p.x, width), WrapAxis(p.y, height))
  }

  // ------------------------------------------------------------------- Trail

  /** The entry one tick of `dt` seconds older. */
  function Aged(e: TrailEntry, dt: real): TrailEntry {
    TrailEntry(e.pos, e.life - dt)
  }

  /** The entry still has life left after `dt` more seconds. */
  predicate Survives(e: TrailEntry, dt: real) {
    e.life - dt > 0.0
  }

  /** Every life in the trail lies in (0, hi]. */
  predicate LivesWithin(trail: seq<TrailEntry>, hi: real) {
    forall k :: 0 <= k < |trail| ==> 0.0 < trail[k].life <= hi
  }

  /**
   * The list comprehension that rebuilds the trail: each entry aged by `dt`,
   * those without life left dropped, the rest kept in order.
   */
  function AgeTrail(trail: seq<TrailEntry>, dt: real): (r: seq<TrailEntry>)
    ensures |r| <= |trail|
    ensures forall k :: 0 <= k < |r| ==> 0.0 < r[k].life
  {
    if trail == [] then []
    else
      var rest := AgeTrail(trail[1..], dt);
      if Survives(trail[0], dt) then [Aged(trail[0], dt)] + rest else rest
  }

  /** The indices of the entries that survive, in increasing order. */
  ghost function Kept(trail: seq<TrailEntry>, dt: real): (idx: seq<nat>)
    ensures |idx| <= |trail|
    ensures forall k :: 0 <= k < |idx| ==> idx[k] < |trail| && Survives(trail[idx[k]], dt)
    ensures forall k, l :: 0 <= k < l < |idx| ==> idx[k] < idx[l]
    ensures forall j :: 0 <= j < |trail| && Survives(trail[j], dt) ==> j in idx
  {
    if trail == [] then []
    else
      var n := |trail| - 1;
      var init := Kept(trail[..n], dt);
      assert forall j :: 0 <= j < n ==> trail[..n][j] == trail[j];
      init + if Survives(trail[n], dt) then [n] else []
  }

  /** Ageing distributes over concatenation, so it never reorders entries. */
  lemma {:induction false} AgeTrailAppend(a: seq<TrailEntry>, b: seq<TrailEntry>, dt: real)
    ensures AgeTrail(a + b, dt) == AgeTrail(a, dt) + AgeTrail(b, dt)
  {
    if a == [] {
      assert a + b == b;
    } else {
      assert (a + b)[1..] == a[1..] + b;
      AgeTrailAppend(a[1..], b, dt);
    }
  }

  /**
   * The rebuilt trail is exactly the survivors, in their original order,
   * each with its position and its life decreased by `dt`.
   */
  lemma {:induction false} AgeTrailIsFilterMap(trail: seq<TrailEntry>, dt: real)
    ensures |AgeTrail(trail, dt)| == |Kept(trail, dt)|
    ensures forall k :: 0 <= k < |Kept(trail, dt)| ==>
              AgeTrail(trail, dt)[k] == Aged(trail[Kept(trail, dt)[k]], dt)
  {
    if trail != [] {
      var n := |trail| - 1;
      var init := trail[..n];
      assert trail == init + [trail[n]];
      AgeTrailAppend(init, [trail[n]], dt);
      AgeTrailIsFilterMap(init, dt);
      assert forall j :: 0 <= j < n ==> init[j] == trail[j];
    }
  }

  /** With lives in (0, hi] and `dt >= 0`, the aged lives lie in (0, hi - dt]. */
  lemma {:induction false} AgeTrailLives(trail: seq<TrailEntry>, dt: real, hi: real)
    requires 0.0 <= dt
    requires LivesWithin(trail, hi)
    ensures LivesWithin(AgeTrail(trail, dt), hi - dt)
  {
    if trail != [] {
      AgeTrailLives(trail[1..], dt, hi);
    }
  }

  /** A tick of zero seconds ages nothing and drops nothing from a live trail. */
  lemma {:induction false} AgeTrailZero(trail: seq<TrailEntry>)
    requires forall k :: 0 <= k < |trail| ==> 0.0 < trail[k].life
    ensures AgeTrail(trail, 0.0) == trail
  {
    if trail != [] {
      AgeTrailZero(trail[1..]);
    }
  }

  /**
   * One tick of the trail buffer: the current position is appended with
   * the full life `maxLife`, then the whole buffer is aged by `dt`.
   */
  function TrailStep(trail: seq<TrailEntry>, pos: Vec2, maxLife: real, dt: real): (r: seq<TrailEntry>)
    ensures |r| <= |trail| + 1
    ensures forall k :: 0 <= k < |r| ==> 0.0 < r[k].life
  {
    AgeTrail(trail + [TrailEntry(pos, maxLife)], dt)
  }

  /**
   * The appended entry is kept exactly when `maxLife > dt`, and then it is
   * the newest entry, at the position of this tick; otherwise it is gone the
   * same tick and the rest of the buffer ages alone.
   */
  lemma TrailStepNewest(trail: seq<TrailEntry>, pos: Vec2, maxLife: real, dt: real)
    ensures dt < maxLife ==>
              |TrailStep(trail, pos, maxLife, dt)| == |AgeTrail(trail, dt)| + 1 &&
              TrailStep(trail, pos, maxLife, dt)[|TrailStep(trail, pos, maxLife, dt)| - 1]
                == TrailEntry(pos, maxLife - dt)
    ensures maxLife <= dt ==> TrailStep(trail, pos, maxLife, dt) == AgeTrail(trail, dt)
  {
    AgeTrailAppend(trail, [TrailEntry(pos, maxLife)], dt);
  }

  /**
   * Starting from lives in (0, maxLife] and with `dt >= 0`, every life after
   * the tick lies in (0, maxLife - dt].
   */
  lemma TrailStepLives(trail: seq<TrailEntry>, pos: Vec2, maxLife: real, dt: real)
    requires 0.0 <= dt
    requires LivesWithin(trail, maxLife)
    ensures LivesWithin(TrailStep(trail, pos, maxLife, dt), maxLife - dt)
  {
    var e := TrailEntry(pos, maxLife);
    AgeTrailAppend(trail, [e], dt);
    AgeTrailLives(trail, dt, maxLife);
    assert AgeTrail([e], dt) == if Survives(e, dt) then [Aged(e, dt)] else [];
  }

  /** With `dt == 0` nothing is removed: the buffer only grows, by the new entry. */
  lemma TrailStepZero(trail: seq<TrailEntry>, pos: Vec2, maxLife: real)
    requires 0.0 < maxLife
    requires LivesWithin(trail, maxLife)
    ensures TrailStep(trail, pos, maxLife, 0.0) == trail + [TrailEntry(pos, maxLife)]
  {
    AgeTrailZero(trail + [TrailEntry(pos, maxLife)]);
  }
}
