/** The weapon controller's timing: the shot accumulator, its catch-up loop and its idle fold. */
module Firing {
  import opened Geometry
  import opened Projectiles
  import opened Ships

  /** Seconds between volleys: `1 / GetFireRate(w)`. */
  function Interval(w: Weapon): (i: real)
    ensures i > 0.0 && i * FireRate(w) == 1.0
  {
    1.0 / FireRate(w)
  }

  /** Projectile speed: `GetSpacing(w) * GetFireRate(w)`, so consecutive shots are `spacing` apart. */
  function ProjectileSpeed(w: Weapon): (s: real)
    ensures s * Interval(w) == Spacing(w)
  {
    Spacing(w) * FireRate(w)
  }

  /** The weapon table: a laser fires 10 volleys a second at 400 px/s, a bullet or side
      blaster 30 a second at 600 px/s. */
  lemma WeaponTable()
    ensures Interval(Laser) == 0.1 && ProjectileSpeed(Laser) == 400.0
    ensures Interval(Bullet) == Interval(SideBlaster) == 1.0 / 30.0
    ensures ProjectileSpeed(Bullet) == ProjectileSpeed(SideBlaster) == 600.0
  {
  }

  /** What the catch-up loop `while (shotTimer >= interval) { ...; shotTimer -= interval; }`
      does to an accumulator holding `timer`: the number of volleys and what is left. */
  function Drain(timer: real, interval: real): (r: (nat, real))
    requires interval > 0.0
    ensures timer == r.0 as real * interval + r.1
    ensures r.1 < interval
    ensures timer >= 0.0 ==> 0.0 <= r.1
    ensures timer < interval <==> r.0 == 0
    decreases if timer < interval then 0 else (timer / interval).Floor
  {
    if timer < interval then (0, timer)
    else
      DivShift(timer, interval);
      var d := Drain(timer - interval, interval);
      (d.0 + 1, d.1)
  }

  /** `fmodf` over exact reals: `x - trunc(x / y) * y`, the quotient truncated toward zero,
      so the result has the sign of `x`. */
  function FMod(x: real, y: real): (r: real)
    requires y > 0.0
    ensures x >= 0.0 ==> 0.0 <= r < y
    ensures x < 0.0 ==> -y < r <= 0.0
  {
    if x >= 0.0 then
      FloorBoundsDiv(x, y);
      x - (x / y).Floor as real * y
    else
      FloorBoundsDiv(-x, y);
      -(-x - (-x / y).Floor as real * y)
  }

  /** Multiplying by a positive number keeps order. */
  lemma MulMono(a: real, b: real, y: real)
    requires y > 0.0
    ensures a <= b ==> a * y <= b * y
    ensures a < b ==> a * y < b * y
  {
    assert (b - a) * y == b * y - a * y;
  }

  /** Real division by a positive number inverts multiplication and keeps the sign. */
  lemma DivFacts(x: real, y: real)
    requires y > 0.0
    ensures (x / y) * y == x
    ensures x >= 0.0 <==> x / y >= 0.0
  {
  }

  /** Multiplication by a positive number is injective. */
  lemma MulCancel(a: real, b: real, y: real)
    requires y > 0.0 && a * y == b * y
    ensures a == b
  {
    MulMono(a, b, y);
    MulMono(b, a, y);
  }

  /** `floor(x / y) * y <= x < floor(x / y) * y + y`. */
  lemma FloorBoundsDiv(x: real, y: real)
    requires y > 0.0
    ensures (x / y).Floor as real * y <= x < (x / y).Floor as real * y + y
  {
    var q := x / y;
    var f := q.Floor as real;
    DivFacts(x, y);
    MulMono(f, q, y);
    assert q < f + 1.0;
    MulMono(q, f + 1.0, y);
    assert (f + 1.0) * y == f * y + y;
    assert x < f * y + y;
  }

  /** Taking one interval off the accumulator takes one off the quotient. */
  lemma DivShift(t: real, i: real)
    requires i > 0.0
    ensures (t - i) / i == t / i - 1.0
  {
    DivFacts(t - i, i);
    DivFacts(t, i);
    assert (t / i - 1.0) * i == t - i;
    MulCancel((t - i) / i, t / i - 1.0, i);
  }

  /** Dividing `k * i + rest` by `i` splits the quotient. */
  lemma DivSplit(k: real, rest: real, i: real)
    requires i > 0.0
    ensures (k * i + rest) / i == k + rest / i
  {
    DivFacts(k * i + rest, i);
    DivFacts(rest, i);
    assert (k + rest / i) * i == k * i + rest;
    MulCancel((k * i + rest) / i, k + rest / i, i);
  }

  /** If `timer = k * i + rest` with `0 <= rest < i`, then `k` is `floor(timer / i)`. */
  lemma FloorOfSplit(timer: real, i: real, k: nat, rest: real)
    requires i > 0.0 && timer == k as real * i + rest && 0.0 <= rest < i
    ensures (timer / i).Floor == k
  {
    DivSplit(k as real, rest, i);
    DivFacts(rest, i);
    MulMono(rest / i, 1.0, i);
    MulMono(1.0, rest / i, i);
    assert 0.0 <= rest / i < 1.0;
    var q := timer / i;
    assert k as real <= q < k as real + 1.0;
  }

  /** The idle branch: the accumulator is replaced by `fmodf(shotTimer, interval)` only when it
      exceeds the current weapon's interval, and left alone otherwise. */
  function Fold(timer: real, interval: real): (r: real)
    requires interval > 0.0
    ensures timer <= interval ==> r == timer
    ensures timer > interval ==> 0.0 <= r < interval
    ensures timer >= 0.0 ==> 0.0 <= r <= interval
  {
    if timer > interval then FMod(timer, interval) else timer
  }

  /** The catch-up loop and `fmodf` agree: on a non-negative accumulator, the loop fires
      `floor(timer / interval)` volleys and leaves exactly `fmodf(timer, interval)`. */
  lemma DrainMatchesFMod(timer: real, interval: real)
    requires timer >= 0.0 && interval > 0.0
    ensures Drain(timer, interval).0 == (timer / interval).Floor
    ensures Drain(timer, interval).1 == FMod(timer, interval)
  {
    var (k, rest) := Drain(timer, interval);
    FloorOfSplit(timer, interval, k, rest);
  }

  /** The idle fold keeps the firing phase: it leaves what the catch-up loop would have left
      after firing every whole interval, and a value the loop could not fire again. */
  lemma FoldKeepsPhase(timer: real, interval: real)
    requires timer > interval > 0.0
    ensures Fold(timer, interval) == Drain(timer, interval).1
    ensures Drain(Fold(timer, interval), interval).0 == 0
  {
    DrainMatchesFMod(timer, interval);
  }

  /** The projectiles `k` volleys append, in firing order. */
  function Volleys(w: Weapon, pos: Vec2, speed: real, k: nat): (r: seq<Projectile>)
    ensures |r| == k * |MakeProjectile(w, pos, speed)|
    ensures forall j | 0 <= j < |r| ::
      r[j] == MakeProjectile(w, pos, speed)[j % |MakeProjectile(w, pos, speed)|]
  {
    if k == 0 then [] else Volleys(w, pos, speed, k - 1) + MakeProjectile(w, pos, speed)
  }

  /** The catch-up loop while fire is held: one volley from `pos` per whole interval in the
      accumulator. Gives the volleys fired, what is left of the accumulator, and the
      projectiles in firing order. */
  method CatchUp(timer: real, interval: real, w: Weapon, pos: Vec2, speed: real)
    returns (volleys: nat, rest: real, shots: seq<Projectile>)
    requires interval > 0.0
    ensures (volleys, rest) == Drain(timer, interval)
    ensures shots == Volleys(w, pos, speed, volleys)
  {
    volleys, rest, shots := 0, timer, [];
    while rest >= interval
      invariant Drain(timer, interval) == (volleys + Drain(rest, interval).0, Drain(rest, interval).1)
      invariant shots == Volleys(w, pos, speed, volleys)
      decreases Drain(rest, interval).0
    {
      shots := shots + MakeProjectile(w, pos, speed);
      rest := rest - interval;
      volleys := volleys + 1;
    }
  }
}
