# Ship drift model

A Dafny model of the ship in a small pygame program: a ship that turns,
thrusts and drifts with inertia on a screen whose edges wrap around, leaving a
trail of particles that fade over a fixed lifetime. The model covers the
ship's per-tick state update, `Ship.update` in `domain/ship.py`, which runs
four steps in a fixed order:

1. input response: the heading turns by `rotation_speed * dt` and is taken
   modulo 360; a thrust impulse is added along the heading and the speed is
   clamped to `max_speed`;
2. physics step: the position moves by the velocity, then friction scales
   the velocity;
3. wrap: each axis is wrapped on its own against the screen extent, with
   strict tests;
4. trail: the current position is appended with full life, every entry is
   aged by `dt`, and entries with no life left are dropped.

The project has three modules:

- `Vectors` (`vector.dfy`): the part of `pygame.Vector2` the ship uses, over
  exact reals.
- `ShipRules` (`ship_rules.dfy`): each step as a function of values, with
  the lemmas that state what the steps promise (heading range and
  uniqueness of the modulo, the speed clamp, the wrap rule, the trail as a
  filter plus a subtraction that keeps order).
- `Ships` (`ship.dfy`): the class `Ship`, whose methods change its fields in
  place as domain/ship.py does, each specified by the functions of
  `ShipRules`. It also holds three client methods that replay
  concrete ticks: an idle tick, a drift across the left edge, and thrust at
  full speed.

Inputs that the program reads from devices or computes in floating point
are parameters:

- `keys: Keys` replaces `pygame.key.get_pressed()`: `left` is K_a, `right`
  is K_d and `thrust` is K_w.
- `width`, `height` replace the screen rectangle.
- `forward: real -> Vec2` stands for `Vector2(0, -1).rotate(angle)`, the
  north vector turned clockwise by `angle` degrees. Only the scenario
  `ThrustAtFullSpeed` fixes a value of `forward`; no other contract assumes
  anything about it.
- `sqrt: real -> real` stands for the square root inside
  `Vector2.length` and `Vector2.scale_to_length`. It is required to be the
  non-negative square root (`IsSqrt`).

All arithmetic is on exact reals, not IEEE floats. Python's float `%` is
modelled as the floored modulo, so a heading is always in `[0, 360)`.

Two consequences of the code are easy to miss:

- The wrap tests at domain/ship.py:79-86 are strict, so a coordinate that
  sits exactly on 0 or on the extent stays where it is. Wrapped positions
  therefore lie in the closed range `[0, width] × [0, height]`.
- Friction at domain/ship.py:75 runs after the speed clamp at
  domain/ship.py:70-71. A tick that clamps the speed to `max_speed`
  therefore ends at speed `friction * max_speed` (4.9 for the defaults), as
  `Ships.ThrustAtFullSpeed` shows.

## Model

| member | source | states |
|---|---|---|
| `Vectors.Length` | domain/ship.py:70 | the length is non-negative and its square is the squared length |
| `Vectors.ScaleToLength` | domain/ship.py:71 | for a vector of non-zero length, the result has squared length `len * len` and points the same way as the input (parallel, not opposed) |
| `Vectors.ScaleShrinks` | domain/ship.py:75 | scaling by a friction factor in `[-1, 1]` never makes the velocity longer |
| `ShipRules.Mod360` | domain/ship.py:63-64 | the normalised heading is in `[0, 360)` and a whole number of turns from the input; a heading already in `[0, 360)` is unchanged |
| `ShipRules.Mod360Unique` | domain/ship.py:64 | any angle in `[0, 360)` that is a whole number of turns from `a` equals `Mod360(a)` |
| `ShipRules.Mod360Periodic` | domain/ship.py:64 | adding whole turns does not change the normalised heading |
| `ShipRules.Turned` | domain/ship.py:58-61 | before normalisation, K_a alone subtracts `rotation_speed * dt`, K_d alone adds it, and both or neither leave the heading unchanged |
| `ShipRules.Thrusted` | domain/ship.py:66-71 | after impulse and clamp the squared speed is at most `max_speed²`; an unclamped sum within the bound is returned as it is; beyond it the result has length exactly `max_speed` in the direction of the sum |
| `ShipRules.WrapAxis` | domain/ship.py:79-86 | a coordinate below 0 becomes the extent, one beyond the extent becomes 0, one in `[0, extent]` (edges included) is unchanged, so the result lies in `[0, extent]` |
| `ShipRules.WrapAxisIdempotent` | domain/ship.py:79-86 | a wrapped coordinate is not wrapped again |
| `ShipRules.Wrapped` | domain/ship.py:78-86 | each axis is wrapped on its own against its extent, and the position lands in `[0, width] × [0, height]` |
| `ShipRules.AgeTrail` | domain/ship.py:90 | the rebuilt trail is no longer than the old one and every remaining life is strictly positive |
| `ShipRules.Kept` | domain/ship.py:90 | the indices of the entries that survive ageing, strictly increasing, each one surviving, and every survivor listed |
| `ShipRules.AgeTrailAppend` | domain/ship.py:90 | ageing distributes over concatenation, so entries are never reordered |
| `ShipRules.AgeTrailIsFilterMap` | domain/ship.py:90 | the rebuilt trail is exactly the surviving entries in their original order, each with its position unchanged and its life decreased by `dt` |
| `ShipRules.AgeTrailLives` | domain/ship.py:90 | with `dt >= 0` and lives in `(0, hi]`, the aged lives lie in `(0, hi - dt]` |
| `ShipRules.AgeTrailZero` | domain/ship.py:90 | with `dt == 0` a trail of live entries is left exactly as it was |
| `ShipRules.TrailStep` | domain/ship.py:88-90 | one trail tick grows the trail by at most one entry and leaves only strictly positive lives |
| `ShipRules.TrailStepNewest` | domain/ship.py:89-90 | the appended entry survives exactly when `trail_max_life > dt`, and is then the newest entry with the tick's position and life `trail_max_life - dt`; otherwise it is gone the same tick |
| `ShipRules.TrailStepLives` | domain/ship.py:88-90 | with `dt >= 0` and lives in `(0, trail_max_life]`, every life after the tick lies in `(0, trail_max_life - dt]` |
| `ShipRules.TrailStepZero` | domain/ship.py:88-90 | with `dt == 0` nothing is removed and the trail grows by exactly the new entry |
| `Ships.Ship.constructor` | domain/ship.py:13-40 | the ship starts at the given integer position, at rest, heading north, with an empty trail and the default or given `max_speed` and `friction`; it satisfies `Steady` |
| `Ships.Ship.Update` | domain/ship.py:43-48 | input, physics, wrap, then trail, in that order; the heading ends in `[0, 360)`, the position in the screen, the speed within `max_speed` (for friction in `[-1, 1]`), and the newest trail entry records the post-wrap position; `Steady` is preserved for `dt >= 0` |
| `Ships.Ship.HandleInput` | domain/ship.py:55-71 | the new heading is the normalised turned heading; with K_w the velocity is the clamped thrust along the new heading, without it the velocity is untouched |
| `Ships.Ship.PhysicsStep` | domain/ship.py:73-75 | the position moves by the pre-friction velocity; then the velocity is scaled by `friction` |
| `Ships.Ship.Wrap` | domain/ship.py:78-86 | the new position is the old one with each axis wrapped on its own |
| `Ships.Ship.UpdateTrail` | domain/ship.py:88-90 | the new trail is the old one with the current position appended at full life, then aged by `dt` |
| `Ships.IdleTick` | domain/ship.py:43-47 | an idle tick of 1/60 s at (400, 300) on 800 × 600 keeps heading 0, zero velocity and the position, and leaves one trail entry with life `0.6 - 1/60` |
| `Ships.DriftAcrossLeftEdge` | domain/ship.py:79-80 | a ship at x = 0 moving left by 1 reappears at x = 800, still moving left (after friction) |
| `Ships.ThrustAtFullSpeed` | domain/ship.py:66-75 | thrust at speed 5 heading north is clamped back to speed 5 north, moves the ship 5 up, and friction leaves velocity (0, -4.9) |

## Left out

- Rendering: `draw`, `_draw_trail`, `_apply_rotation`, `_create_default_image`, the `image` and `rect` fields, the `image` constructor parameter and the `rect.center` update in `_physics_step` (domain/ship.py:23-25, 50-52, 76, 92-117). They only produce pixels.
- The keyboard read `pygame.key.get_pressed()` (domain/ship.py:56) is device input. It is the `keys` parameter.
- The trigonometry of `Vector2.rotate` (domain/ship.py:68) is floating-point numerics. It is the `forward` parameter.
- The square root of `length` and `scale_to_length` (domain/ship.py:70-71) is floating-point numerics. It is the `sqrt` parameter, and the clamp is stated on squared lengths.
- IEEE float behaviour is not modelled. For example, Python's `%` can return 360.0 for a tiny negative float, and `t - dt` can round. The model uses exact reals.
- Ships.Ship.constructor: `max_speed` is taken non-negative (type `NonNegReal`). With a negative `max_speed`, `scale_to_length` would be asked to rescale even a zero velocity, which pygame refuses. The program only uses the default 5.0.
- Ships.Ship.Update: the speed bound and `Steady` are promised only for a friction factor in `[-1, 1]`, and for the speed bound without thrust only when the bound held before. The source does not restrict `friction`; its default is 0.98.
- domain/space.py (window, event polling, clock-derived `dt`, frame pacing) and business/main.py (process entry) are harness code and are not part of this model.
