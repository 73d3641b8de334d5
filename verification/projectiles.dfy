/** Weapons and the projectiles they fire. */
module Projectiles {
  import opened Geometry

  /** `WeaponType` without its `COUNT` sentinel. */
  datatype Weapon = Laser | Bullet | SideBlaster

  /** The enum's integer value. */
  function Ordinal(w: Weapon): nat
  {
    match w
    case Laser => 0
    case Bullet => 1
    case SideBlaster => 2
  }

  /** Tab: `(current + 1) % COUNT`, so LASER -> BULLET -> SIDE_BLASTER -> LASER. */
  function Next(w: Weapon): (r: Weapon)
    ensures Ordinal(r) == (Ordinal(w) + 1) % 3
  {
    match w
    case Laser => Bullet
    case Bullet => SideBlaster
    case SideBlaster => Laser
  }

  /** Cycling is a permutation of period three: three presses give back the same weapon,
      and one press always changes it. */
  lemma NextCycles(w: Weapon)
    ensures Next(w) != w && Next(Next(w)) != w
    ensures Next(Next(Next(w))) == w
    ensures {w, Next(w), Next(Next(w))} == {Laser, Bullet, SideBlaster}
  {
  }

  /** One projectile in flight. */
  datatype Projectile = Projectile(pos: Vec2, vel: Vec2, damage: int, weapon: Weapon)
  {
    /** `GetRadius`: 5 for a bullet, 2 for the other kinds. */
    function Radius(): (r: real)
      ensures r == (if weapon == Bullet then 5.0 else 2.0)
      ensures r > 0.0
    {
      if weapon == Bullet then 5.0 else 2.0
    }

    /** `Update`: move by one frame; the flag is true when the moved centre has left the
        play area and the projectile must be culled. */
    function Update(dt: real): (r: (Projectile, bool))
      ensures r.0 == this.(pos := Advance(pos, vel, dt))
      ensures r.1 <==> !InPlay(r.0.pos)
    {
      var moved := this.(pos := Advance(pos, vel, dt));
      var p := moved.pos;
      (moved, p.x < 0.0 || p.x > Width || p.y < 0.0 || p.y > Height)
    }
  }

  /** `MakeProjectile`: the volley one firing event produces at `pos` with `speed`. */
  function MakeProjectile(w: Weapon, pos: Vec2, speed: real): (r: seq<Projectile>)
    ensures |r| == (if w == SideBlaster then 2 else 1)
    ensures forall i | 0 <= i < |r| :: r[i].pos == pos && r[i].weapon == w
    ensures w == Laser ==> r[0].vel == Vec2(0.0, -speed) && r[0].damage == 10
    ensures w == Bullet ==> r[0].vel == Vec2(0.0, -speed) && r[0].damage == 3
    ensures w == SideBlaster ==>
      && r[0].vel == Vec2(-speed, 0.0) && r[1].vel == Vec2(speed, 0.0)
      && r[0].damage == 5 && r[1].damage == 5
  {
    match w
    case Laser => [Projectile(pos, Vec2(0.0, -speed), 10, w)]
    case Bullet => [Projectile(pos, Vec2(0.0, -speed), 3, w)]
    case SideBlaster => [Projectile(pos, Vec2(-speed, 0.0), 5, w), Projectile(pos, Vec2(speed, 0.0), 5, w)]
  }
}
