/** The frame orchestrator: `Application::Run`'s state and the phases of one tick. */
module Simulation {
  import opened Geometry
  import opened Sequences
  import opened Options
  import opened Asteroids
  import opened Projectiles
  import opened Ships
  import opened Firing
  import opened Passes

  /** `MAX_AST`: no asteroid is spawned while this many are live. */
  const MaxAsteroids: nat := 150
  /** `C_SPAWN_MIN`, `C_SPAWN_MAX`: range of the spawn interval in seconds. */
  const SpawnMin: real := 0.5
  const SpawnMax: real := 3.0

  /** The keys the frame reads: held ones (movement, fire) and pressed-this-frame ones. */
  datatype Keys = Keys(
    move: MoveKeys, fire: bool, nextWeapon: bool, restart: bool,
    one: bool, two: bool, three: bool, four: bool, five: bool)

  /** The random values one frame may draw. */
  datatype Draws = Draws(restartInterval: real, spawnInterval: real, spawn: SpawnDraw)

  predicate ValidDraws(d: Draws)
  {
    && SpawnMin <= d.restartInterval <= SpawnMax
    && SpawnMin <= d.spawnInterval <= SpawnMax
    && ValidDraw(d.spawn)
  }

  /** The shape-switch keys, checked in the order 1, 2, 3, 5, 4, so that of several keys
      pressed in one frame the one checked last wins. */
  function SelectShape(current: ShapeSelector, k: Keys): (r: ShapeSelector)
    ensures k.four ==> r == RandomShape
    ensures !k.four && k.five ==> r == Fixed(RedHeavy)
    ensures !k.four && !k.five && k.three ==> r == Fixed(Pentagon)
    ensures !k.four && !k.five && !k.three && k.two ==> r == Fixed(Square)
    ensures !k.four && !k.five && !k.three && !k.two && k.one ==> r == Fixed(Triangle)
    ensures !(k.one || k.two || k.three || k.four || k.five) ==> r == current
  {
    var s1 := if k.one then Fixed(Triangle) else current;
    var s2 := if k.two then Fixed(Square) else s1;
    var s3 := if k.three then Fixed(Pentagon) else s2;
    var s5 := if k.five then Fixed(RedHeavy) else s3;
    if k.four then RandomShape else s5
  }

  /** Where a volley leaves the ship: its centre moved up by its radius. */
  function Muzzle(pos: Vec2, radius: real): Vec2
  {
    Vec2(pos.x, pos.y - radius)
  }

  /** The spawn gate: a tick with `timer` accumulated and `count` live asteroids spawns one. */
  predicate SpawnDue(timer: real, interval: real, count: nat)
  {
    timer >= interval && count < MaxAsteroids
  }

  /** What one frame of the main loop takes in: the frame time, the keys and the random draws. */
  datatype Frame = Frame(dt: real, keys: Keys, draws: Draws)

  predicate ValidFrame(f: Frame)
  {
    f.dt >= 0.0 && ValidDraws(f.draws)
  }

  /** `Application` with the locals of `Run` that live across frames. */
  class World {
    var ship: Ship
    var asteroids: seq<Asteroid>
    var projectiles: seq<Projectile>
    var spawnTimer: real
    var spawnInterval: real
    var shotTimer: real
    var points: int
    var weapon: Weapon
    var shape: ShapeSelector
    /** The player ship's texture-derived radius; every ship the game creates has it. */
    const shipRadius: real

    ghost predicate Valid()
      reads this, ship
    {
      && |asteroids| <= MaxAsteroids
      && (forall a | a in asteroids :: WellFormed(a))
      && SpawnMin <= spawnInterval <= SpawnMax
      && 0.0 <= shotTimer
      && 0.0 <= shipRadius && ship.radius == shipRadius
      && ship.Status().Consistent()
    }

    /** The state `Run` starts from before its first frame. */
    constructor (shipRadius: real, firstInterval: real)
      requires 0.0 <= shipRadius
      requires SpawnMin <= firstInterval <= SpawnMax
      ensures Valid() && fresh(ship)
      ensures ship.pos == Vec2(Width * 0.5, Height * 0.5) && ship.hp == 100 && ship.alive
      ensures asteroids == [] && projectiles == []
      ensures spawnTimer == 0.0 && spawnInterval == firstInterval && shotTimer == 0.0
      ensures points == 0 && weapon == Laser && shape == Fixed(Triangle)
      ensures this.shipRadius == shipRadius
    {
      this.shipRadius := shipRadius;
      ship := new Ship(Width, Height, shipRadius);
      asteroids := [];
      projectiles := [];
      spawnTimer := 0.0;
      spawnInterval := firstInterval;
      shotTimer := 0.0;
      points := 0;
      weapon := Laser;
      shape := Fixed(Triangle);
    }

    /** The restart branch: only a dead ship can be restarted. A fresh ship replaces it and the
        world is cleared; the weapon, its accumulator and the shape selection carry over. */
    method Restart(pressed: bool, nextInterval: real)
      requires Valid()
      requires SpawnMin <= nextInterval <= SpawnMax
      modifies this`ship, this`asteroids, this`projectiles, this`spawnTimer, this`spawnInterval, this`points
      ensures Valid()
      ensures old(!ship.alive) && pressed ==>
        && fresh(ship) && ship.hp == 100 && ship.alive
        && ship.pos == Vec2(Width * 0.5, Height * 0.5)
        && asteroids == [] && projectiles == []
        && spawnTimer == 0.0 && spawnInterval == nextInterval && points == 0
      ensures !(old(!ship.alive) && pressed) ==>
        && ship == old(ship) && asteroids == old(asteroids) && projectiles == old(projectiles)
        && spawnTimer == old(spawnTimer) && spawnInterval == old(spawnInterval) && points == old(points)
    {
      if !ship.alive && pressed {
        ship := new Ship(Width, Height, shipRadius);
        asteroids := [];
        projectiles := [];
        spawnTimer := 0.0;
        spawnInterval := nextInterval;
        points := 0;
      }
    }

    /** The shooting block. While fire is held by a living ship, the frame time is added to
        the accumulator and the catch-up loop fires one volley per whole interval; otherwise
        the accumulator is folded back with `fmodf` when it exceeds the interval. */
    method Shoot(firing: bool, dt: real) returns (volleys: nat)
      requires Valid() && dt >= 0.0
      modifies this`shotTimer, this`projectiles
      ensures Valid()
      ensures ship.alive && firing ==>
        && (volleys, shotTimer) == Drain(old(shotTimer) + dt, Interval(weapon))
        && projectiles == old(projectiles)
             + Volleys(weapon, Muzzle(ship.pos, ship.radius), ProjectileSpeed(weapon), volleys)
      ensures !(ship.alive && firing) ==>
        && volleys == 0
        && shotTimer == Fold(old(shotTimer), Interval(weapon))
        && projectiles == old(projectiles)
    {
      volleys := 0;
      if ship.alive && firing {
        var interval := Interval(weapon);
        var shots;
        volleys, shotTimer, shots := CatchUp(shotTimer + dt, interval, weapon,
          Muzzle(ship.pos, ship.radius), ProjectileSpeed(weapon));
        projectiles := projectiles + shots;
      } else {
        var maxInterval := Interval(weapon);
        if shotTimer > maxInterval {
          shotTimer := FMod(shotTimer, maxInterval);
        }
      }
    }

    /** The spawn block: when the accumulated time has reached the interval and fewer than
        `MaxAsteroids` are live, one asteroid is appended and the timer restarts. */
    method Spawn(d: SpawnDraw, nextInterval: real)
      requires Valid() && ValidDraw(d)
      requires SpawnMin <= nextInterval <= SpawnMax
      modifies this`asteroids, this`spawnTimer, this`spawnInterval
      ensures Valid()
      ensures SpawnDue(old(spawnTimer), old(spawnInterval), old(|asteroids|)) ==>
        && asteroids == old(asteroids) + [MakeAsteroid(shape, d)]
        && spawnTimer == 0.0 && spawnInterval == nextInterval
      ensures !SpawnDue(old(spawnTimer), old(spawnInterval), old(|asteroids|)) ==>
        && asteroids == old(asteroids)
        && spawnTimer == old(spawnTimer) && spawnInterval == old(spawnInterval)
    {
      if spawnTimer >= spawnInterval && |asteroids| < MaxAsteroids {
        asteroids := asteroids + [MakeAsteroid(shape, d)];
        spawnTimer := 0.0;
        spawnInterval := nextInterval;
      }
    }

    /** The `remove_if` over projectiles: each is advanced, and removed once outside the play area. */
    method MoveProjectiles(dt: real)
      modifies this`projectiles
      ensures projectiles == CullProjectiles(old(projectiles), dt)
    {
      var kept: seq<Projectile> := [];
      var i := 0;
      while i < |projectiles|
        invariant 0 <= i <= |projectiles|
        invariant projectiles == old(projectiles)
        invariant kept + CullProjectiles(projectiles[i..], dt) == CullProjectiles(projectiles, dt)
      {
        assert projectiles[i..][1..] == projectiles[i + 1..];
        var (moved, out) := projectiles[i].Update(dt);
        if !out {
          kept := kept + [moved];
        }
        i := i + 1;
      }
      projectiles := kept;
    }

    /** The projectile-asteroid pass over the world's projectiles, asteroids and score. */
    method ResolveHits()
      modifies this`projectiles, this`asteroids, this`points
      ensures HitResult(projectiles, asteroids, points)
        == Resolve(old(projectiles), old(asteroids), old(points))
    {
      projectiles, asteroids, points := HitLoop(projectiles, asteroids, points);
    }

    /** The asteroid `remove_if`: the ship-collision test, then the advance and cull. */
    method ShipCollisions(dt: real)
      requires Valid()
      modifies this`asteroids, ship`hp, ship`alive
      ensures Valid()
      ensures ShipPassResult(ship.Status(), asteroids)
        == ShipPass(old(ship.Status()), ship.pos, ship.radius, old(asteroids), dt)
      ensures |asteroids| <= old(|asteroids|)
    {
      var rocks, pos, radius := asteroids, ship.pos, ship.radius;
      var kept: seq<Asteroid> := [];
      var i := 0;
      ghost var start := ship.Status();
      while i < |rocks|
        invariant 0 <= i <= |rocks| && |kept| <= i
        invariant ship.Status().Consistent()
        invariant forall b | b in kept :: WellFormed(b)
        invariant ShipPassResult(ship.Status(), kept) == ShipPass(start, pos, radius, rocks[..i], dt)
      {
        var a := rocks[i];
        TakeStep(rocks, i);
        ShipPassAppend(start, pos, radius, rocks[..i], a, dt);
        if ship.alive && Overlap(pos, a.pos, radius + a.Radius()) {
          ship.TakeDamage(a.Damage());
        } else {
          var (moved, keep) := a.Update(dt);
          assert WellFormed(moved) by { assert a in rocks; }
          if keep {
            kept := kept + [moved];
          }
        }
        i := i + 1;
      }
      assert rocks[..i] == rocks;
      asteroids := kept;
    }

    /** The simulation half of a frame, after the input has been handled: shooting, spawning,
        the projectile advance, projectile hits, and the combined ship-collision and asteroid
        pass. At most one asteroid is added and the score never drops. */
    method Simulate(dt: real, fire: bool, draws: Draws)
      requires Valid() && dt >= 0.0 && ValidDraws(draws)
      modifies this`asteroids, this`projectiles, this`spawnTimer, this`spawnInterval
      modifies this`shotTimer, this`points, ship`hp, ship`alive
      ensures Valid()
      ensures |asteroids| <= old(|asteroids|) + 1
      ensures points >= old(points)
    {
      var _ := Shoot(fire, dt);
      Spawn(draws.spawn, draws.spawnInterval);
      MoveProjectiles(dt);
      ghost var before := (projectiles, asteroids, points);
      ResolveHits();
      ResolveScore(before.0, before.1, before.2);
      ResolveWellFormed(before.0, before.1, before.2);
      ShipCollisions(dt);
    }

    /** One frame of `Run`, in the source's order: timers, ship motion, restart, shape and
        weapon switches, then the simulation half. */
    method Tick(dt: real, keys: Keys, draws: Draws)
      requires Valid() && dt >= 0.0 && ValidDraws(draws)
      modifies this, ship
      ensures Valid()
      ensures |asteroids| <= old(|asteroids|) + 1
      ensures old(ship.alive) ==> points >= old(points)
      ensures weapon == (if keys.nextWeapon then Next(old(weapon)) else old(weapon))
      ensures shape == SelectShape(old(shape), keys)
      ensures ship == old(ship) || fresh(ship)
    {
      spawnTimer := spawnTimer + dt;
      ship.Update(dt, keys.move);
      Restart(keys.restart, draws.restartInterval);
      shape := SelectShape(shape, keys);
      if keys.nextWeapon {
        weapon := Next(weapon);
      }
      Simulate(dt, keys.fire, draws);
    }

    /** The main loop over a run of frames: however many frames pass, the live asteroids never
        exceed `MaxAsteroids`, each frame adds at most one, and the world stays valid. */
    method Run(frames: seq<Frame>)
      requires Valid()
      requires forall i | 0 <= i < |frames| :: ValidFrame(frames[i])
      modifies this, ship
      ensures Valid()
      ensures |asteroids| <= MaxAsteroids
      ensures |asteroids| <= old(|asteroids|) + |frames|
    {
      var i := 0;
      while i < |frames|
        invariant 0 <= i <= |frames|
        invariant Valid()
        invariant |asteroids| <= old(|asteroids|) + i
        invariant ship == old(ship) || fresh(ship)
      {
        var f := frames[i];
        Tick(f.dt, f.keys, f.draws);
        i := i + 1;
      }
    }
  }
}
