/** The player's ship: its health state machine, movement and per-weapon firing constants. */
module Ships {
  import opened Geometry
  import opened Sequences
  import opened Projectiles

  /** Health and the alive flag, the part of a ship that damage changes. */
  datatype ShipStatus = ShipStatus(hp: int, alive: bool)
  {
    /** `Ship::TakeDamage`: ignored once dead; otherwise health drops by `dmg`, unclamped,
        and the ship dies exactly when its health reaches zero or below. */
    function Damage(dmg: int): (s: ShipStatus)
      ensures !alive ==> s == this
      ensures alive ==> s.hp == hp - dmg && (s.alive <==> s.hp > 0)
      ensures s.alive ==> alive
    {
      if !alive then this
      else var h := hp - dmg; ShipStatus(h, h > 0)
    }

    /** The state machine's invariant: a living ship has positive health. */
    predicate Consistent()
    {
      alive ==> hp > 0
    }
  }

  /** A run of contact damages applied in order. */
  function ApplyDamages(s: ShipStatus, ds: seq<int>): ShipStatus
    decreases |ds|
  {
    if ds == [] then s else ApplyDamages(s.Damage(ds[0]), ds[1..])
  }

  /** Dead is final: once dead, no damage changes the ship. */
  lemma {:induction false} DeadIsFinal(s: ShipStatus, ds: seq<int>)
    requires !s.alive
    ensures ApplyDamages(s, ds) == s
    decreases |ds|
  {
    if ds != [] {
      DeadIsFinal(s.Damage(ds[0]), ds[1..]);
    }
  }

  /** From a consistent living ship, non-negative damages d1..dn leave it alive exactly when
      `hp - (d1 + .. + dn) > 0`, and then its health is exactly that. */
  lemma {:induction false} DamageRun(s: ShipStatus, ds: seq<int>)
    requires s.alive && s.hp > 0
    requires forall i | 0 <= i < |ds| :: ds[i] >= 0
    ensures ApplyDamages(s, ds).Consistent()
    ensures ApplyDamages(s, ds).alive <==> s.hp - Sum(ds) > 0
    ensures ApplyDamages(s, ds).alive ==> ApplyDamages(s, ds).hp == s.hp - Sum(ds)
    decreases |ds|
  {
    if ds != [] {
      var t := s.Damage(ds[0]);
      if t.alive {
        DamageRun(t, ds[1..]);
      } else {
        DeadIsFinal(t, ds[1..]);
        SumNonNegative(ds[1..]);
      }
    }
  }

  lemma {:induction false} SumNonNegative(ds: seq<int>)
    requires forall i | 0 <= i < |ds| :: ds[i] >= 0
    ensures Sum(ds) >= 0
    decreases |ds|
  {
    if ds != [] {
      SumNonNegative(ds[1..]);
    }
  }

  /** `Ship::GetFireRate`: shots per second (`fireRateLaser`, `fireRateBullet`). */
  function FireRate(w: Weapon): (r: real)
    ensures r > 0.0
  {
    if w == Laser then 10.0 else 30.0
  }

  /** `Ship::GetSpacing`: pixels between consecutive shots (`spacingLaser`, `spacingBullet`). */
  function Spacing(w: Weapon): real
  {
    if w == Laser then 40.0 else 20.0
  }

  /** Movement keys held this frame (W, S, A, D). */
  datatype MoveKeys = MoveKeys(up: bool, down: bool, left: bool, right: bool)

  /** `PlayerShip::Update`: a living ship moves by `step` along each held direction;
      a dead one ignores the keys and drifts down by `step`. */
  function Steer(p: Vec2, alive: bool, keys: MoveKeys, step: real): (q: Vec2)
    ensures !alive ==> q == Vec2(p.x, p.y + step)
    ensures alive ==> q.x == p.x + (if keys.right then step else 0.0) - (if keys.left then step else 0.0)
    ensures alive ==> q.y == p.y + (if keys.down then step else 0.0) - (if keys.up then step else 0.0)
  {
    if alive then
      var y1 := if keys.up then p.y - step else p.y;
      var y2 := if keys.down then y1 + step else y1;
      var x1 := if keys.left then p.x - step else p.x;
      var x2 := if keys.right then x1 + step else x1;
      Vec2(x2, y2)
    else Vec2(p.x, p.y + step)
  }

  /** `PlayerShip`. Its radius comes from the texture width, so it is given at construction. */
  class Ship {
    var pos: Vec2
    var hp: int
    var alive: bool
    const maxHP: int
    const speed: real
    const radius: real

    /** The ship's status value. */
    function Status(): ShipStatus
      reads this
    {
      ShipStatus(hp, alive)
    }

    /** A new ship: centred, full health, alive. */
    constructor (w: real, h: real, radius: real)
      requires radius >= 0.0
      ensures pos == Vec2(w * 0.5, h * 0.5)
      ensures hp == 100 && maxHP == 100 && alive && speed == 500.0
      ensures this.radius == radius
      ensures Status().Consistent()
    {
      pos := Vec2(w * 0.5, h * 0.5);
      hp := 100;
      maxHP := 100;
      speed := 500.0;
      alive := true;
      this.radius := radius;
    }

    /** `Ship::TakeDamage`. */
    method TakeDamage(dmg: int)
      modifies this`hp, this`alive
      ensures Status() == old(Status()).Damage(dmg)
      ensures old(Status().Consistent()) ==> Status().Consistent()
    {
      if !alive {
        return;
      }
      hp := hp - dmg;
      if hp <= 0 {
        alive := false;
      }
    }

    /** `PlayerShip::Update`. */
    method Update(dt: real, keys: MoveKeys)
      modifies this`pos
      ensures pos == Steer(old(pos), alive, keys, speed * dt)
    {
      if alive {
        if keys.up { pos := pos.(y := pos.y - speed * dt); }
        if keys.down { pos := pos.(y := pos.y + speed * dt); }
        if keys.left { pos := pos.(x := pos.x - speed * dt); }
        if keys.right { pos := pos.(x := pos.x + speed * dt); }
      } else {
        pos := pos.(y := pos.y + speed * dt);
      }
    }
  }
}
