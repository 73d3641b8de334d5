/** Asteroids: the four shape classes, their size classes, stats, health and motion. */
module Asteroids {
  import opened Geometry
  import opened Sequences

  /** The concrete asteroid classes `TriangleAsteroid` .. `RedHeavyAsteroid`. */
  datatype Shape = Triangle | Square | Pentagon | RedHeavy

  /** The `AsteroidShape` selector the player switches: one fixed shape, or RANDOM. */
  datatype ShapeSelector = Fixed(shape: Shape) | RandomShape

  /** `Renderable::Size`: SMALL = 1, MEDIUM = 2, LARGE = 4. */
  datatype Size = Small | Medium | Large
  {
    function Value(): nat
    {
      match this
      case Small => 1
      case Medium => 2
      case Large => 4
    }
  }

  /** `1 << k`. */
  function Shl(k: nat): nat
  {
    if k == 0 then 1 else 2 * Shl(k - 1)
  }

  /** The size class drawn as `1 << GetRandomValue(0, 2)`. */
  function SizeFromExponent(k: int): (s: Size)
    requires 0 <= k <= 2
    ensures s.Value() == Shl(k)
  {
    if k == 0 then Small else if k == 1 then Medium else Large
  }

  /** The `baseDamage` each subclass constructor assigns. */
  function BaseDamage(shape: Shape): int
  {
    match shape
    case Triangle => 5
    case Square => 10
    case Pentagon => 15
    case RedHeavy => 20
  }

  /** The `baseHP` each subclass constructor assigns. */
  function BaseHP(shape: Shape): int
  {
    match shape
    case Triangle => 30
    case Square => 60
    case Pentagon => 90
    case RedHeavy => 150
  }

  /** Health a new asteroid starts with: only `RedHeavyAsteroid` calls `SetupHP`;
      the other three keep the member initialisers `hp = 0`, `maxHP = 0`. */
  function InitialHP(shape: Shape, size: Size): int
  {
    if shape == RedHeavy then BaseHP(shape) * size.Value() else 0
  }

  /** One live asteroid. Velocity and rotation speed are fixed at creation. */
  datatype Asteroid = Asteroid(
    pos: Vec2, rotation: real, vel: Vec2, rotSpeed: real,
    size: Size, shape: Shape, hp: int, maxHP: int)
  {
    /** `GetRadius`: 16 pixels per size unit. */
    function Radius(): real
    {
      16.0 * size.Value() as real
    }

    /** `GetDamage`: contact damage dealt to the ship. */
    function Damage(): int
    {
      BaseDamage(shape) * size.Value()
    }

    /** `TakeDamage`: health drops by exactly `dmg`, unclamped. */
    function TakeDamage(dmg: int): Asteroid
    {
      this.(hp := hp - dmg)
    }

    /** `IsDestroyed`. */
    predicate IsDestroyed()
    {
      hp <= 0
    }

    /** `Update`: move by one frame; the flag says whether the asteroid is kept. */
    function Update(dt: real): (r: (Asteroid, bool))
      ensures r.0.pos == Advance(pos, vel, dt)
      ensures r.0.rotation == rotation + rotSpeed * dt
      ensures r.0 == this.(pos := r.0.pos, rotation := r.0.rotation)
      ensures r.1 <==> InKeep(r.0.pos, Radius())
    {
      var moved := this.(pos := Advance(pos, vel, dt), rotation := rotation + rotSpeed * dt);
      var p := moved.pos;
      var r := Radius();
      if p.x < -r || p.x > Width + r || p.y < -r || p.y > Height + r then (moved, false)
      else (moved, true)
    }
  }

  /** The random draws `Asteroid::init` and `MakeAsteroid` make, taken as inputs.
      `heading` is the velocity `init` computes by aiming at a point near the centre. */
  datatype SpawnDraw = SpawnDraw(
    sizeExp: int, edge: int, along: real, heading: Vec2,
    rotSpeed: real, rotation: real, shapeRoll: int)

  const SpeedMin: real := 20.0
  const SpeedMax: real := 120.0
  const RotMin: real := 40.0
  const RotMax: real := 150.0

  /** The ranges of the random generators. `along` is `RandomFloat(0, screenW)` for the
      top and bottom edges and `RandomFloat(0, screenH)` for the side edges. */
  predicate ValidDraw(d: SpawnDraw)
  {
    && 0 <= d.sizeExp <= 2
    && 0 <= d.edge <= 3
    && 0.0 <= d.along <= (if d.edge == 1 || d.edge == 3 then Height else Width)
    && SpeedMin * SpeedMin <= Dist2(d.heading, Vec2(0.0, 0.0)) <= SpeedMax * SpeedMax
    && RotMin <= d.rotSpeed <= RotMax
    && 0.0 <= d.rotation <= 360.0
    && 0 <= d.shapeRoll <= 3
  }

  /** RANDOM resolves to `3 + GetRandomValue(0, 3)`, i.e. TRIANGLE .. REDHEAVY. */
  function ShapeOfRoll(roll: int): Shape
    requires 0 <= roll <= 3
  {
    if roll == 0 then Triangle else if roll == 1 then Square else if roll == 2 then Pentagon else RedHeavy
  }

  /** Entry position: just outside one edge, offset by the asteroid's own radius. */
  function EntryPosition(edge: int, along: real, r: real): Vec2
  {
    if edge == 0 then Vec2(along, -r)
    else if edge == 1 then Vec2(Width + r, along)
    else if edge == 2 then Vec2(along, Height + r)
    else Vec2(-r, along)
  }

  /** `MakeAsteroid`: a new asteroid of the selected (or rolled) shape. */
  function MakeAsteroid(sel: ShapeSelector, d: SpawnDraw): (a: Asteroid)
    requires ValidDraw(d)
    ensures a.shape == (if sel.Fixed? then sel.shape else ShapeOfRoll(d.shapeRoll))
    ensures a.size.Value() == Shl(d.sizeExp) && a.size.Value() in {1, 2, 4}
    ensures a.Radius() == 16.0 * Shl(d.sizeExp) as real
    ensures a.Damage() == BaseDamage(a.shape) * Shl(d.sizeExp)
    ensures a.shape == RedHeavy ==> a.hp == a.maxHP == 150 * a.size.Value()
    ensures a.shape != RedHeavy ==> a.hp == a.maxHP == 0
    ensures d.edge == 0 ==> a.pos == Vec2(d.along, -a.Radius())
    ensures d.edge == 1 ==> a.pos == Vec2(Width + a.Radius(), d.along)
    ensures d.edge == 2 ==> a.pos == Vec2(d.along, Height + a.Radius())
    ensures d.edge == 3 ==> a.pos == Vec2(-a.Radius(), d.along)
    ensures WellFormed(a)
    ensures a.vel == d.heading && a.rotSpeed == d.rotSpeed && a.rotation == d.rotation
    ensures RotMin <= a.rotSpeed <= RotMax
  {
    var shape := if sel.Fixed? then sel.shape else ShapeOfRoll(d.shapeRoll);
    var size := SizeFromExponent(d.sizeExp);
    var r := 16.0 * size.Value() as real;
    var hp := InitialHP(shape, size);
    Asteroid(EntryPosition(d.edge, d.along, r), d.rotation, d.heading, d.rotSpeed, size, shape, hp, hp)
  }

  /** The stats that stay fixed for an asteroid's lifetime: `maxHP` is what its shape
      and size class started it with. Radius and damage are functions of the same pair. */
  predicate WellFormed(a: Asteroid)
  {
    a.maxHP == InitialHP(a.shape, a.size)
  }

  /** A new asteroid starts on the boundary of its keep region: inside it, so that it is
      not culled before it moves, and outside the visible play area. */
  lemma SpawnOnKeepBoundary(sel: ShapeSelector, d: SpawnDraw)
    requires ValidDraw(d)
    ensures var a := MakeAsteroid(sel, d);
      && WellFormed(a)
      && InKeep(a.pos, a.Radius())
      && !InPlay(a.pos)
      && (a.pos.x == -a.Radius() || a.pos.x == Width + a.Radius()
          || a.pos.y == -a.Radius() || a.pos.y == Height + a.Radius())
  {
  }

  /** A run of hits applied one after another with `TakeDamage`. */
  function ApplyHits(a: Asteroid, ds: seq<int>): Asteroid
    decreases |ds|
  {
    if ds == [] then a else ApplyHits(a.TakeDamage(ds[0]), ds[1..])
  }

  /** Damage accumulates exactly: after hits d1..dn health is `hp - (d1 + .. + dn)`, nothing
      else changes, and the asteroid counts as destroyed exactly when that is <= 0. */
  lemma {:induction false} HitsAccumulate(a: Asteroid, ds: seq<int>)
    ensures ApplyHits(a, ds) == a.(hp := a.hp - Sum(ds))
    ensures ApplyHits(a, ds).IsDestroyed() <==> Sum(ds) >= a.hp
    decreases |ds|
  {
    if ds != [] {
      HitsAccumulate(a.TakeDamage(ds[0]), ds[1..]);
    }
  }

  /** Because only RedHeavy calls `SetupHP`, a new Triangle, Square or Pentagon asteroid is
      destroyed by any hit, while a RedHeavy one survives until the hits reach 150 per size unit. */
  lemma FirstHitOutcome(sel: ShapeSelector, d: SpawnDraw, ds: seq<int>)
    requires ValidDraw(d)
    requires ds != [] && forall i | 0 <= i < |ds| :: ds[i] >= 0
    ensures var a := MakeAsteroid(sel, d);
      a.shape != RedHeavy ==> a.TakeDamage(ds[0]).IsDestroyed()
    ensures var a := MakeAsteroid(sel, d);
      a.shape == RedHeavy ==> (ApplyHits(a, ds).IsDestroyed() <==> Sum(ds) >= 150 * a.size.Value())
  {
    HitsAccumulate(MakeAsteroid(sel, d), ds);
  }
}
