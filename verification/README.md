# Asteroids OOP — a verified model of the game rules

This project models the game-rule core of a small raylib arcade game (`main.cpp`).
The player's ship sits in a 1600×1600 play area. Asteroids of four shape classes drift in from
the edges. The ship fires one of three weapons, and each frame the game runs these steps:

- advance the timers;
- move the ship;
- handle a restart;
- handle the shape and weapon switches;
- fire volleys through a fixed-interval accumulator;
- spawn an asteroid;
- advance and cull the projectiles;
- resolve projectile–asteroid hits;
- run one combined pass that collides the ship with each asteroid and advances and culls the asteroids.

The model is written in Dafny:

| file | contents |
|---|---|
| `geometry.dfy` | vectors, the play area, the overlap test |
| `sequences.dfy` | order-preserving subsequences, sums, an `Option` type |
| `asteroids.dfy` | shapes, sizes, stats, `MakeAsteroid`, asteroid health and motion |
| `projectiles.dfy` | weapons, projectiles, `MakeProjectile` |
| `ship.dfy` | the ship's health state machine and movement, as a `class Ship` |
| `firing.dfy` | the shot accumulator: its catch-up loop and its idle `fmodf` fold |
| `passes.dfy` | one function per per-frame pass, plus the loops that compute them |
| `game.dfy` | `class World`: the `Application::Run` state, and one method per phase of a frame |

How the source's entities map to Dafny:

- Asteroids and projectiles are values kept in `seq` fields. The source owns them through
  `std::vector` and `unique_ptr`, so no asteroid or projectile is shared.
- The ship is an object whose health and alive flag are updated in place.
- Each pass over a vector is a `while` loop. It is proved equal to a recursive function, and
  that function's properties are proved as lemmas.

Some behaviours of the code are easy to misread, and the model follows the code in each:

- Only `RedHeavyAsteroid` calls `SetupHP` (`main.cpp:215-221`). The other three constructors set
  `baseHP` (30, 60 and 90, `main.cpp:183`, `195`, `207`), but that value is never applied, so
  Triangle, Square and Pentagon asteroids keep `hp = maxHP = 0` (`main.cpp:170-171`) and any hit
  destroys them. A Medium Triangle thus starts at 0, not 60. `Asteroids.FirstHitOutcome` states
  what happens.
- One asteroid can be hit by several projectiles in the same pass. Every projectile scans the
  current asteroids anew. `Passes.SameAsteroidHitTwice` shows two projectiles damaging one
  asteroid in the same frame.
- The ship's health is not clamped at zero, and it can go negative.
- The idle fold only fires when the accumulator is strictly above the interval (`>`). An
  accumulator exactly equal to the interval is kept.
- A restart resets the ship, both vectors, the spawn timer and interval, and the score. It keeps
  the weapon, the shot accumulator and the shape selection.

## Model

| member | source | states |
|---|---|---|
| Asteroids.SizeFromExponent | main.cpp:133 | the size class drawn from exponent k has value `1 << k`, so it is 1, 2 or 4 |
| Asteroids.Asteroid.Update | main.cpp:90-97 | the position moves by `vel*dt` and the rotation by `rotSpeed*dt`; no other field changes; the keep flag is true exactly when the centre lies in `[-r, W+r]×[-r, H+r]` |
| Asteroids.MakeAsteroid | main.cpp:232-248 | a fixed selection gives that shape and RANDOM gives shape `3 + roll`; size is `1 << sizeExp`; radius is `16 * (1 << sizeExp)`; damage is `baseDamage * (1 << sizeExp)`; edge 0/1/2/3 puts it one radius above the top / right of the right / below the bottom / left of the left edge, at the drawn coordinate along that edge; `maxHP` is the one its shape and size start it with; a RedHeavy starts with `hp = maxHP = 150*size` and the other shapes with 0; velocity, spin and rotation come from the draws |
| Asteroids.SpawnOnKeepBoundary | main.cpp:132-148 | a new asteroid starts exactly one radius outside an edge: it is on the boundary of its keep region, not culled, and outside the visible area |
| Asteroids.HitsAccumulate | main.cpp:123-129 | after hits d1..dn the health is `hp - Σd` and nothing else changes; the asteroid is destroyed exactly when `Σd >= hp` |
| Asteroids.FirstHitOutcome | main.cpp:179-226 | a new non-RedHeavy asteroid is destroyed by its first non-negative hit; a RedHeavy one is destroyed exactly when the hits reach `150*size` |
| Projectiles.Next | main.cpp:507-509 | Tab moves to weapon `(ordinal + 1) % 3` |
| Projectiles.NextCycles | main.cpp:507-509 | cycling always changes the weapon, returns to it after three presses, and visits all three weapons |
| Projectiles.Projectile.Radius | main.cpp:296-298 | 5 for a bullet and 2 otherwise, so always positive |
| Projectiles.Projectile.Update | main.cpp:263-274 | the position moves by `vel*dt` and nothing else changes; the removal flag is true exactly when the centre has left the closed play area |
| Projectiles.MakeProjectile | main.cpp:311-326 | Laser and Bullet give one upward shot with damage 10 or 3; SideBlaster gives a left and a right shot with damage 5; every shot starts at the muzzle with the firing weapon |
| Ships.ShipStatus.Damage | main.cpp:352-356 | a dead ship ignores damage; a live ship loses exactly `dmg`, unclamped, and stays alive exactly when its health stays positive; damage never revives a ship |
| Ships.DeadIsFinal | main.cpp:352-356 | no run of damage changes a dead ship |
| Ships.DamageRun | main.cpp:352-356 | non-negative damages d1..dn leave a living ship alive exactly when `hp - Σd > 0`, with health `hp - Σd`; the ship stays consistent |
| Ships.FireRate | main.cpp:376-378 | every weapon has a positive fire rate |
| Ships.Steer | main.cpp:408-418 | a living ship moves `speed*dt` along each held direction, with opposite keys cancelling; a dead one drifts down by `speed*dt` |
| Ships.Ship.constructor | main.cpp:332-347 | a new ship is centred, alive, at 100/100 health, with speed 500 |
| Ships.Ship.TakeDamage | main.cpp:352-356 | the new status is `Damage(dmg)` of the old one, and consistency is preserved |
| Ships.Ship.Update | main.cpp:408-418 | the new position is `Steer` of the old one with step `speed*dt` |
| Firing.Interval | main.cpp:515 | the interval is positive and is the reciprocal of the fire rate |
| Firing.ProjectileSpeed | main.cpp:516 | the speed times the interval is the spacing, i.e. speed = spacing × fire rate; the volleys of one catch-up leave the same muzzle in the same frame, stacked |
| Firing.WeaponTable | main.cpp:343-346 | a laser fires every 0.1 s at 400 px/s; the bullet and the side blaster fire every 1/30 s at 600 px/s |
| Firing.Drain | main.cpp:518-524 | the catch-up loop fires k volleys and leaves r, with `timer = k*interval + r` and `r < interval` (and `r >= 0` from a non-negative timer); it fires none exactly when `timer < interval` |
| Firing.FMod | main.cpp:530 | `fmodf` keeps the sign of x and is smaller than y in magnitude |
| Firing.Fold | main.cpp:526-532 | the idle branch leaves an accumulator `<= interval` unchanged and folds a larger one into `[0, interval)` |
| Firing.DrainMatchesFMod | main.cpp:518-530 | from a non-negative accumulator, the loop fires `floor(timer/interval)` volleys and leaves exactly `fmodf(timer, interval)` |
| Firing.FoldKeepsPhase | main.cpp:526-532 | the idle fold leaves what the firing loop would have left, and the loop could fire nothing more from it |
| Firing.Volleys | main.cpp:518-524 | k volleys append `k*|volley|` projectiles; the j-th is shot `j mod |volley|` of the volley |
| Firing.CatchUp | main.cpp:518-524 | the loop fires `Drain(timer, interval)` volleys, leaves its remainder, and appends exactly `Volleys(..)` in firing order |
| Passes.CullProjectilesIsFilter | main.cpp:544-548 | the survivors are moved projectiles in storage order; each survivor is in the play area; every moved projectile in the play area survives, and there are exactly as many survivors as such projectiles, so identical shots each survive |
| Passes.FirstHit | main.cpp:555-569 | the result is the smallest index of a touched asteroid, and None exactly when no asteroid is touched |
| Passes.FindHit | main.cpp:555-569 | the scan loop stops at the index `FirstHit` gives, or at the end when nothing is touched |
| Passes.Strike | main.cpp:556-568 | one projectile's loop body computes `HitStep`: consumed or kept, the asteroids after the hit, the score |
| Passes.HitStepFacts | main.cpp:556-568 | a projectile is kept exactly when it touches nothing, and then nothing changes; otherwise it is consumed, at most one asteroid is erased, and the score rises by one exactly when one is |
| Passes.HitStepTarget | main.cpp:556-568 | a projectile that touches something damages the first asteroid it touches by its own damage and is consumed; that asteroid is erased and one point scored exactly when its health is then <= 0, otherwise it stays in place with the lower health |
| Passes.HitsOnOneAsteroid | main.cpp:552-573 | projectiles that all touch one asteroid, with summed damage below its health, leave it in place with health `hp - Σ damage` (the `ApplyHits` run of `HitsAccumulate`), all consumed, no point scored |
| Passes.FinalHitDestroys | main.cpp:552-573 | the hit that brings the summed damage up to the asteroid's health erases it and scores exactly one point |
| Passes.ResolveWellFormed | main.cpp:556-568 | hits change only health, so every asteroid left keeps the `maxHP` its shape and size started it with |
| Passes.ResolveAppend | main.cpp:552-573 | the pass handles projectiles in storage order: resolving `ps + [p]` is resolving `ps`, then one `HitStep` for `p` |
| Passes.HitLoop | main.cpp:552-573 | the erase-while-iterating loop computes exactly `Resolve` |
| Passes.ResolveScore | main.cpp:563-566 | the score rises by exactly the number of asteroids erased; the pass never adds or moves an asteroid |
| Passes.ResolveKeeps | main.cpp:552-573 | kept projectiles keep their storage order, and none of them touches any asteroid left after the pass |
| Passes.SameAsteroidHitTwice | main.cpp:552-573 | two projectiles on one spot both damage the same RedHeavy asteroid in one pass, and both are consumed |
| Passes.ShipPassAppend | main.cpp:577-593 | the pass threads the ship's status through the asteroids in storage order |
| Passes.ShipPassKept | main.cpp:587-593 | the kept asteroids are moved asteroids, in storage order, each inside its keep region, and there are no more of them than before |
| Passes.CullAsteroidsIsFilter | main.cpp:587-590 | advance-and-cull keeps exactly the moved asteroids inside their keep region, in storage order: every survivor is inside, every moved asteroid inside survives, and the survivors number exactly the asteroids inside |
| Passes.ShipPassDamage | main.cpp:579-585 | the ship ends the pass as if the contact damage of every asteroid touching it were applied in storage order |
| Passes.ShipPassOutcome | main.cpp:579-585 | a living ship survives the pass exactly when its health exceeds the summed contact damage of the touching asteroids, and then its health is the difference |
| Passes.ShipPassExact | main.cpp:577-593 | the whole pass: while the ship lives, every touching asteroid is erased and the others are advanced and culled; once it is dead, the rest are only advanced and culled; the ship is alive before each asteroid of the first part and dead after it unless it survives |
| Passes.ShipPassKeepsUntouched | main.cpp:579-590 | an asteroid that does not touch the ship and stays inside its keep region after moving is kept |
| Passes.ShipPassHealth | main.cpp:579-585 | the ship's health only drops; a dead ship is never revived; a consistent ship stays consistent |
| Passes.DeadShipPass | main.cpp:579-590 | with a dead ship the pass is exactly advance-and-cull, and the status is unchanged |
| Passes.HeavyCollision | main.cpp:579-585 | a full-health ship touching a Large RedHeavy asteroid drops to 20 health, stays alive, and the asteroid is erased |
| Simulation.SelectShape | main.cpp:490-504 | keys are checked in the order 1, 2, 3, 5, 4, so the last one checked wins (RANDOM beats all); with no key pressed the selection is kept |
| Simulation.World.constructor | main.cpp:465-471 | the initial state: a new ship, empty vectors, zero timers and score, Laser, Triangle, a spawn interval in `[0.5, 3]` |
| Simulation.World.Restart | main.cpp:481-488 | only a dead ship with R pressed restarts: fresh ship, empty vectors, zero spawn timer and score, a new interval; otherwise nothing changes |
| Simulation.World.Shoot | main.cpp:512-533 | while fire is held by a living ship, the accumulator and the appended projectiles are those of `Drain` and `Volleys`; otherwise nothing is fired and the accumulator is folded |
| Simulation.World.Spawn | main.cpp:536-540 | when the timer has reached the interval and fewer than 150 asteroids are live, exactly one `MakeAsteroid` is appended and the timer restarts; otherwise nothing changes |
| Simulation.World.MoveProjectiles | main.cpp:543-549 | the projectiles become `CullProjectiles` of the old ones |
| Simulation.World.ResolveHits | main.cpp:552-573 | projectiles, asteroids and score become `Resolve` of the old ones |
| Simulation.World.ShipCollisions | main.cpp:576-594 | ship status and asteroids become `ShipPass` of the old ones; the invariant holds and the count does not grow |
| Simulation.World.Simulate | main.cpp:512-594 | shooting through the ship pass: the invariant holds, at most one asteroid is added, and the score never drops |
| Simulation.World.Run | main.cpp:473-594 | over any run of frames the world stays valid (every live asteroid keeps its starting `maxHP`), the live asteroids never exceed 150, and each frame adds at most one |
| Simulation.World.Tick | main.cpp:474-594 | one frame keeps the invariant (at most 150 asteroids, each keeping its starting `maxHP`, interval in range, non-negative accumulator, consistent ship), adds at most one asteroid, never lowers the score of a living ship, and applies the weapon and shape switches |

## Left out

- Rendering is left out: `Draw`, health bars, text, the background texture, the blink of a dead ship.
- The ship's radius comes from its texture (`width * 0.25 / 2`), so it is a constructor parameter.
- Window, keyboard and clock are parameters. The frame time is `dt`, and the key state of a frame is `Keys`.
- The random draws (`GetRandomValue`, `Utils::RandomFloat`) are inputs (`SpawnDraw`, `Draws`), limited to the generators' ranges.
- The asteroid's aim at a point near the centre (`cosf`, `sinf`, `Vector2Normalize`) is left out. Its heading is an input whose length lies in `[SpeedMin, SpeedMax]`.
- Floats are exact reals. `Vector2Distance(a, b) < r` is compared squared, so no square root appears. Float rounding, and the float division by `maxHP == 0` in `Asteroid::Draw`, are not modelled.
- The singletons (`Application`, `Renderer`) are left out. So are `srand`, the vectors' `reserve`, and the unused constants `C_MAX_ASTEROIDS` and `C_MAX_PROJECTILES`.
- Simulation.World.Tick: its contract states the invariant, the asteroid count, the score and the switches. The full new state is stated phase by phase by the methods it calls, not by `Tick` itself.
- Simulation.World.Simulate: like `Tick`, it states the invariant, the count and the score rather than the whole new state.
- The two `remove_if` calls (`main.cpp:544-547`, `592`) use predicates with side effects: one moves the projectile, the other moves the asteroid and damages the ship. The C++ standard does not fix how often or in what order `remove_if` calls its predicate. The model assumes one call per element, in storage order, as common library implementations do.
- Simulation.World.Run: the loop runs over a given sequence of frames; the window-close test that ends it is left out.
- Simulation.World.ResolveHits and Firing.CatchUp: the source erases from and appends to the vector in place. The model runs the same loop on a local sequence and assigns it back, which is the same thing because nothing else reads the vector meanwhile.
