/**
 * The Ship class of domain/ship.py: a ship that drifts with inertia on a
 * toroidal screen and leaves a fading trail. Each tick `Update` runs four
 * steps in a fixed order, each changing some of the fields in place: the
 * input response (heading, then thrust and speed clamp), the physics step,
 * the screen wrap, and the trail buffer.
 *
 * What the program reads from devices or computes in floating point is
 * passed in: `keys` for the keyboard state, `width` and `height` for the
 * screen rectangle, `forward(angle)` for the north vector (0, -1) rotated
 * clockwise by `angle` degrees, and `sqrt` for the square root behind
 * Vector2.length and Vector2.scale_to_length.
 */
module Ships {
  import opened Vectors
  import opened ShipRules

  type NonNegReal = r: real | 0.0 <= r

  class Ship {
    // kinematics
    var pos: Vec2
    var vel: Vec2
    var angle: real  // degrees, 0 is north (-y), clockwise positive

    // control parameters
    const rotationSpeed: real := 180.0  // degrees per second
    const thrust: real := 0.2
    const maxSpeed: NonNegReal
    const friction: real

    // trail: (position, remaining life in seconds), newest last
    var trail: seq<TrailEntry>
    const trailMaxLife: real := 0.6

    /**
     * What a tick keeps when `dt >= 0` and the friction factor has magnitude
     * at most one: the heading in [0, 360), the speed within `maxSpeed`, and
     * every trail life in (0, trailMaxLife].
     */
    predicate Steady()
      reads this
    {
      && 0.0 <= angle < 360.0
      && vel.LengthSq() <= maxSpeed * maxSpeed
      && LivesWithin(trail, trailMaxLife)
    }

    constructor (x: int, y: int, maxSpeed: NonNegReal := 5.0, friction: real := 0.98)
      ensures pos == Vec2(x as real, y as real) && vel == Zero && angle == 0.0
      ensures this.maxSpeed == maxSpeed && this.friction == friction
      ensures trail == []
      ensures Steady()
    {
      pos := Vec2(x as real, y as real);
      vel := Zero;
      angle := 0.0;
      this.maxSpeed := maxSpeed;
      this.friction := friction;
      trail := [];
    }

    /** One tick: input, physics, wrap, trail, in that order. */
    method Update(dt: real, keys: Keys, width: nat, height: nat,
                  forward: real -> Vec2, sqrt: real -> real)
      requires IsSqrt(sqrt)
      modifies this`angle, this`vel, this`pos, this`trail
      ensures angle == Mod360(Turned(old(angle), keys, rotationSpeed, dt))
      ensures var v := if keys.thrust then Thrusted(old(vel), forward(angle), thrust, maxSpeed, sqrt)
                       else old(vel);
              && pos == Wrapped(old(pos).Add(v), width as real, height as real)
              && vel == v.Scale(friction)
      ensures trail == TrailStep(old(trail), pos, trailMaxLife, dt)
      // what the tick promises
      ensures 0.0 <= angle < 360.0
      ensures 0.0 <= pos.x <= width as real && 0.0 <= pos.y <= height as real
      ensures (-1.0 <= friction <= 1.0 && (keys.thrust || old(vel.LengthSq()) <= maxSpeed * maxSpeed))
                ==> vel.LengthSq() <= maxSpeed * maxSpeed
      ensures 0.0 <= dt && old(LivesWithin(trail, trailMaxLife)) ==> LivesWithin(trail, trailMaxLife - dt)
      ensures |trail| <= |old(trail)| + 1
      ensures dt < trailMaxLife ==> |trail| > 0 && trail[|trail| - 1] == TrailEntry(pos, trailMaxLife - dt)
      ensures trailMaxLife <= dt ==> trail == AgeTrail(old(trail), dt)
      ensures -1.0 <= friction <= 1.0 && 0.0 <= dt && old(Steady()) ==> Steady()
    {
      HandleInput(dt, keys, forward, sqrt);
      ghost var v := vel;
      PhysicsStep();
      Wrap(width, height);
      UpdateTrail(dt);
      if -1.0 <= friction <= 1.0 {
        ScaleShrinks(v, friction);
      }
      TrailStepNewest(old(trail), pos, trailMaxLife, dt);
      if 0.0 <= dt && old(LivesWithin(trail, trailMaxLife)) {
        TrailStepLives(old(trail), pos, trailMaxLife, dt);
      }
    }

    /**
     * K_a turns left and K_d turns right by `rotationSpeed * dt`; the heading
     * is then taken modulo 360. K_w adds a thrust impulse along the new
     * heading and clamps the speed.
     */
    method HandleInput(dt: real, keys: Keys, forward: real -> Vec2, sqrt: real -> real)
      requires IsSqrt(sqrt)
      modifies this`angle, this`vel
      ensures angle == Mod360(Turned(old(angle), keys, rotationSpeed, dt))
      ensures keys.thrust ==> vel == Thrusted(old(vel), forward(angle), thrust, maxSpeed, sqrt)
      ensures !keys.thrust ==> vel == old(vel)
    {
      if keys.left {
        angle := angle - rotationSpeed * dt;
      }
      if keys.right {
        angle := angle + rotationSpeed * dt;
      }
      angle := Mod360(angle);
      if keys.thrust {
        var direction := forward(angle);
        vel := vel.Add(direction.Scale(thrust));
        var speed := Length(vel, sqrt);
        if speed > maxSpeed {
          SquareMonotone(maxSpeed, speed);
          vel := ScaleToLength(vel, maxSpeed, sqrt);
        }
      }
    }

    /** The position moves by the velocity, and only then does friction slow it. */
    method PhysicsStep()
      modifies this`pos, this`vel
      ensures pos == old(pos).Add(old(vel))
      ensures vel == old(vel).Scale(friction)
    {
      pos := pos.Add(vel);
      vel := vel.Scale(friction);
    }

    /** Each axis is wrapped on its own against the screen extent. */
    method Wrap(width: nat, height: nat)
      modifies this`pos
      ensures pos == Wrapped(old(pos), width as real, height as real)
    {
      if pos.x < 0.0 {
        pos := pos.(x := width as real);
      } else if pos.x > width as real {
        pos := pos.(x := 0.0);
      }
      if pos.y < 0.0 {
        pos := pos.(y := height as real);
      } else if pos.y > height as real {
        pos := pos.(y := 0.0);
      }
    }

    /** The current position joins the trail with full life; then the trail ages by `dt`. */
    method UpdateTrail(dt: real)
      modifies this`trail
      ensures trail == TrailStep(old(trail), pos, trailMaxLife, dt)
    {
      trail := trail + [TrailEntry(pos, trailMaxLife)];
      trail := AgeTrail(trail, dt);
    }
  }

  /**
   * An idle tick of 1/60 s at the centre of an 800 x 600 screen: heading,
   * velocity and position stay, and the trail holds the one new entry.
   */
  method IdleTick(forward: real -> Vec2, sqrt: real -> real) returns (ship: Ship)
    requires IsSqrt(sqrt)
    ensures ship.angle == 0.0 && ship.vel == Zero && ship.pos == Vec2(400.0, 300.0)
    ensures ship.trail == [TrailEntry(Vec2(400.0, 300.0), 0.6 - 1.0 / 60.0)]
  {
    ship := new Ship(400, 300);
    ship.Update(1.0 / 60.0, NoKeys, 800, 600, forward, sqrt);
    IdleHeading();
    IdleVelocity();
    IdlePosition();
    IdleTrail();
  }

  lemma IdleHeading()
    ensures Mod360(Turned(0.0, NoKeys, 180.0, 1.0 / 60.0)) == 0.0
  {
  }

  lemma IdleVelocity()
    ensures Zero.Scale(0.98) == Zero
  {
  }

  lemma IdlePosition()
    ensures Wrapped(Vec2(400.0, 300.0).Add(Zero), 800.0, 600.0) == Vec2(400.0, 300.0)
  {
  }

  lemma IdleTrail()
    ensures TrailStep([], Vec2(400.0, 300.0), 0.6, 1.0 / 60.0) == [TrailEntry(Vec2(400.0, 300.0), 0.6 - 1.0 / 60.0)]
  {
    var e := TrailEntry(Vec2(400.0, 300.0), 0.6);
    assert [] + [e] == [e];
  }

  /** A ship on the left edge drifting left reappears on the right edge. */
  method DriftAcrossLeftEdge(forward: real -> Vec2, sqrt: real -> real) returns (ship: Ship)
    requires IsSqrt(sqrt)
    ensures ship.pos == Vec2(800.0, 300.0) && ship.vel == Vec2(-0.98, 0.0)
  {
    ship := new Ship(0, 300);
    ship.vel := Vec2(-1.0, 0.0);
    ship.Update(1.0 / 60.0, NoKeys, 800, 600, forward, sqrt);
  }

  /**
   * Thrust at full speed: the clamp brings the speed back to 5 along the
   * heading, and friction then takes it to 0.98 * 5 before the tick ends.
   */
  method ThrustAtFullSpeed(forward: real -> Vec2, sqrt: real -> real) returns (ship: Ship)
    requires IsSqrt(sqrt)
    requires forward(0.0) == Vec2(0.0, -1.0)
    ensures ship.angle == 0.0
    ensures ship.vel == Vec2(0.0, -4.9) && ship.pos == Vec2(400.0, 295.0)
  {
    ship := new Ship(400, 300);
    ship.vel := Vec2(0.0, -5.0);
    ship.Update(1.0 / 60.0, Keys(false, false, true), 800, 600, forward, sqrt);
    ghost var c := Thrusted(Vec2(0.0, -5.0), Vec2(0.0, -1.0), 0.2, 5.0, sqrt);
    assert c.x == 0.0;
    assert (c.y + 5.0) * (c.y - 5.0) == 0.0;
  }
}
