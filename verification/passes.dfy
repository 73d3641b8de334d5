/** What each per-frame pass over the entity vectors computes, as functions of the vectors
    it starts from. The methods of `Simulation.World` are proved to compute exactly these. */
module Passes {
  import opened Geometry
  import opened Sequences
  import opened Options
  import opened Asteroids
  import opened Projectiles
  import opened Ships

  // ----- Projectile advance and cull (the `remove_if` over `Projectile::Update`) -----

  /** Every projectile advanced by one frame, in storage order. */
  function MovedProjectiles(ps: seq<Projectile>, dt: real): (r: seq<Projectile>)
    ensures |r| == |ps|
    ensures forall i | 0 <= i < |ps| :: r[i] == ps[i].Update(dt).0
  {
    seq(|ps|, i requires 0 <= i < |ps| => ps[i].Update(dt).0)
  }

  /** The projectiles that survive the advance: moved, and still inside the play area. */
  function CullProjectiles(ps: seq<Projectile>, dt: real): seq<Projectile>
    decreases |ps|
  {
    if ps == [] then []
    else
      var (moved, out) := ps[0].Update(dt);
      (if out then [] else [moved]) + CullProjectiles(ps[1..], dt)
  }

  /** The cull is exactly a filter: survivors keep their storage order, every survivor is in
      the play area, and every moved projectile that is in the play area survives. */
  lemma {:induction false} CullProjectilesIsFilter(ps: seq<Projectile>, dt: real)
    ensures IsSubsequence(CullProjectiles(ps, dt), MovedProjectiles(ps, dt))
    ensures forall q | q in CullProjectiles(ps, dt) :: InPlay(q.pos)
    ensures forall i | 0 <= i < |ps| && InPlay(ps[i].Update(dt).0.pos) ::
      ps[i].Update(dt).0 in CullProjectiles(ps, dt)
    ensures |CullProjectiles(ps, dt)| == |set i | 0 <= i < |ps| && InPlay(ps[i].Update(dt).0.pos)|
    decreases |ps|
  {
    assert |CullProjectiles(ps, dt)| == |set i | 0 <= i < |ps| && InPlay(ps[i].Update(dt).0.pos)| by {
      CullProjectilesCount(ps, dt, 0);
      assert ps[0..] == ps;
      assert InPlayFrom(ps, dt, 0) == set i | 0 <= i < |ps| && InPlay(ps[i].Update(dt).0.pos);
    }
    if ps != [] {
      CullProjectilesIsFilter(ps[1..], dt);
      var moved := ps[0].Update(dt).0;
      var rest := CullProjectiles(ps[1..], dt);
      var all := MovedProjectiles(ps, dt);
      assert all == [moved] + MovedProjectiles(ps[1..], dt);
      if InPlay(moved.pos) {
        assert CullProjectiles(ps, dt) == [moved] + rest;
        SubsequenceCons(moved, rest, MovedProjectiles(ps[1..], dt));
      } else {
        assert CullProjectiles(ps, dt) == rest;
        SubsequenceSkip(rest, moved, MovedProjectiles(ps[1..], dt));
      }
      forall i | 0 <= i < |ps| && InPlay(ps[i].Update(dt).0.pos)
        ensures ps[i].Update(dt).0 in CullProjectiles(ps, dt)
      {
        if i > 0 {
          assert ps[1..][i - 1] == ps[i];
        }
      }
    }
  }

  /** The indices from `k` on whose projectile is in the play area after moving. */
  function InPlayFrom(ps: seq<Projectile>, dt: real, k: nat): set<int>
  {
    set i | k <= i < |ps| && InPlay(ps[i].Update(dt).0.pos)
  }

  /** One survivor per such index: identical projectiles each survive on their own. */
  lemma {:induction false} CullProjectilesCount(ps: seq<Projectile>, dt: real, k: nat)
    requires k <= |ps|
    ensures |CullProjectiles(ps[k..], dt)| == |InPlayFrom(ps, dt, k)|
    decreases |ps| - k
  {
    if k == |ps| {
      assert InPlayFrom(ps, dt, k) == {};
    } else {
      CullProjectilesCount(ps, dt, k + 1);
      assert ps[k..][0] == ps[k] && ps[k..][1..] == ps[k + 1..];
      var rest := InPlayFrom(ps, dt, k + 1);
      if InPlay(ps[k].Update(dt).0.pos) {
        assert InPlayFrom(ps, dt, k) == rest + {k};
        assert k !in rest;
      } else {
        assert InPlayFrom(ps, dt, k) == rest;
      }
    }
  }

  // ----- Projectile -> asteroid collisions -----

  /** A projectile touches an asteroid: centre distance below the sum of the radii. */
  predicate Hits(p: Projectile, a: Asteroid)
  {
    Overlap(p.pos, a.pos, p.Radius() + a.Radius())
  }

  /** The inner scan: the first asteroid in storage order that the projectile touches. */
  function FirstHit(p: Projectile, rocks: seq<Asteroid>): (r: Option<nat>)
    ensures r.Some? ==> r.value < |rocks| && Hits(p, rocks[r.value])
    ensures r.Some? ==> forall k | 0 <= k < r.value :: !Hits(p, rocks[k])
    ensures r.None? <==> forall k | 0 <= k < |rocks| :: !Hits(p, rocks[k])
    decreases |rocks|
  {
    if rocks == [] then None
    else if Hits(p, rocks[0]) then Some(0)
    else match FirstHit(p, rocks[1..])
      case None => None
      case Some(k) => Some(k + 1)
  }

  /** The inner `for` over asteroids with its `break`: the index of the first asteroid the
      projectile touches, or `|rocks|` when it touches none. */
  method FindHit(p: Projectile, rocks: seq<Asteroid>) returns (j: nat)
    ensures j <= |rocks|
    ensures j < |rocks| <==> FirstHit(p, rocks).Some?
    ensures j < |rocks| ==> FirstHit(p, rocks) == Some(j)
  {
    j := 0;
    while j < |rocks| && !Hits(p, rocks[j])
      invariant 0 <= j <= |rocks|
      invariant forall k | 0 <= k < j :: !Hits(p, rocks[k])
    {
      j := j + 1;
    }
  }

  /** What the collision pass leaves: projectiles, asteroids and the score. */
  datatype HitResult = HitResult(projectiles: seq<Projectile>, asteroids: seq<Asteroid>, points: int)

  /** One projectile of the outer loop. A projectile that touches an asteroid damages the
      first one it touches and is erased; that asteroid is erased, scoring one point, when its
      health is then <= 0. A projectile that touches nothing is kept. */
  function HitStep(p: Projectile, rocks: seq<Asteroid>, points: int): HitResult
  {
    match FirstHit(p, rocks)
    case None => HitResult([p], rocks, points)
    case Some(j) =>
      var hit := rocks[j].TakeDamage(p.damage);
      if hit.IsDestroyed() then HitResult([], rocks[..j] + rocks[j + 1..], points + 1)
      else HitResult([], rocks[j := hit], points)
  }

  /** The body of the outer loop for one projectile: scan for the first asteroid it touches,
      damage it, erase it and score when destroyed. Reports whether the projectile was
      consumed, which the caller erases. */
  method Strike(p: Projectile, rocks: seq<Asteroid>, points: int)
    returns (consumed: bool, rocks': seq<Asteroid>, points': int)
    ensures HitStep(p, rocks, points) == HitResult(if consumed then [] else [p], rocks', points')
  {
    var j := FindHit(p, rocks);
    consumed, rocks', points' := false, rocks, points;
    if j < |rocks| {
      consumed := true;
      var hit := rocks[j].TakeDamage(p.damage);
      if hit.IsDestroyed() {
        rocks' := rocks[..j] + rocks[j + 1..];
        points' := points + 1;
      } else {
        rocks' := rocks[j := hit];
      }
    }
  }

  /** The outer loop over projectiles in storage order, each going through `HitStep` against
      the asteroids and score the earlier ones left. */
  function Resolve(ps: seq<Projectile>, rocks: seq<Asteroid>, points: int): HitResult
    decreases |ps|
  {
    if ps == [] then HitResult([], rocks, points)
    else
      var h := HitStep(ps[0], rocks, points);
      var r := Resolve(ps[1..], h.asteroids, h.points);
      r.(projectiles := h.projectiles + r.projectiles)
  }

  /** The loop runs in storage order: resolving `ps + [p]` is resolving `ps` and then one more
      `HitStep` for `p`. */
  lemma {:induction false} ResolveAppend(ps: seq<Projectile>, p: Projectile, rocks: seq<Asteroid>, points: int)
    ensures var r := Resolve(ps, rocks, points);
      var last := HitStep(p, r.asteroids, r.points);
      Resolve(ps + [p], rocks, points) == last.(projectiles := r.projectiles + last.projectiles)
    decreases |ps|
  {
    if ps == [] {
      assert ps + [p] == [p];
    } else {
      assert (ps + [p])[0] == ps[0] && (ps + [p])[1..] == ps[1..] + [p];
      var h := HitStep(ps[0], rocks, points);
      ResolveAppend(ps[1..], p, h.asteroids, h.points);
      var r := Resolve(ps[1..], h.asteroids, h.points);
      var last := HitStep(p, r.asteroids, r.points);
      assert h.projectiles + (r.projectiles + last.projectiles)
        == (h.projectiles + r.projectiles) + last.projectiles;
    }
  }

  /** The projectile-asteroid loop: erase-while-iterating over the projectiles, each one
      going through `Strike` against the asteroids and score left by the earlier ones. */
  method HitLoop(projectiles: seq<Projectile>, asteroids: seq<Asteroid>, points: int)
    returns (ps: seq<Projectile>, rocks: seq<Asteroid>, score: int)
    ensures HitResult(ps, rocks, score) == Resolve(projectiles, asteroids, points)
  {
    ps, rocks, score := projectiles, asteroids, points;
    ghost var n := 0;
    var i := 0;
    while i < |ps|
      invariant 0 <= i <= |ps| && 0 <= n <= |projectiles|
      invariant ps[i..] == projectiles[n..]
      invariant HitResult(ps[..i], rocks, score) == Resolve(projectiles[..n], asteroids, points)
      decreases |ps| - i
    {
      var p := ps[i];
      DropStep(ps, projectiles, i, n);
      TakeStep(projectiles, n);
      ResolveAppend(projectiles[..n], p, asteroids, points);
      var consumed;
      consumed, rocks, score := Strike(p, rocks, score);
      if consumed {
        EraseAt(ps, i);
        ps := ps[..i] + ps[i + 1..];
      } else {
        TakeStep(ps, i);
        i := i + 1;
      }
      n := n + 1;
    }
    assert ps[i..] == [] && n == |projectiles|;
    assert projectiles[..n] == projectiles && ps[..i] == ps;
  }

  /** Where an asteroid is and how big: all that collision tests look at. */
  function Body(a: Asteroid): (Vec2, Size)
  {
    (a.pos, a.size)
  }

  function Bodies(rocks: seq<Asteroid>): set<(Vec2, Size)>
  {
    set a | a in rocks :: Body(a)
  }

  /** A projectile that touches none of `rocks` touches none of a collection whose bodies all
      come from `rocks`. */
  lemma UntouchedSubset(p: Projectile, rocks: seq<Asteroid>, bs: seq<Asteroid>)
    requires Bodies(bs) <= Bodies(rocks)
    requires forall k | 0 <= k < |rocks| :: !Hits(p, rocks[k])
    ensures forall k | 0 <= k < |bs| :: !Hits(p, bs[k])
  {
    forall k | 0 <= k < |bs| ensures !Hits(p, bs[k]) {
      assert Body(bs[k]) in Bodies(rocks);
      var a :| a in rocks && Body(a) == Body(bs[k]);
      var i :| 0 <= i < |rocks| && rocks[i] == a;
    }
  }

  /** One projectile either is kept, exactly when it touches nothing and then nothing else
      changes, or is consumed; a consumed projectile erases at most one asteroid, and the
      score rises by one exactly when it does. */
  lemma HitStepFacts(p: Projectile, rocks: seq<Asteroid>, points: int)
    ensures var h := HitStep(p, rocks, points);
      && (h.projectiles == [p] <==> FirstHit(p, rocks).None?)
      && (h.projectiles == [p] ==> h.asteroids == rocks && h.points == points)
      && (h.projectiles != [p] ==> h.projectiles == [])
      && |rocks| - 1 <= |h.asteroids| <= |rocks|
      && h.points == points + (|rocks| - |h.asteroids|)
      && Bodies(h.asteroids) <= Bodies(rocks)
  {
    match FirstHit(p, rocks)
    case None =>
    case Some(j) =>
      var hit := rocks[j].TakeDamage(p.damage);
      if hit.IsDestroyed() {
        var rest := rocks[..j] + rocks[j + 1..];
        assert Bodies(rest) <= Bodies(rocks) by {
          forall a | a in rest ensures a in rocks {
            assert a in rocks[..j] || a in rocks[j + 1..];
          }
        }
      } else {
        var rest := rocks[j := hit];
        assert Bodies(rest) <= Bodies(rocks) by {
          forall a | a in rest ensures Body(a) in Bodies(rocks) {
            var i :| 0 <= i < |rest| && rest[i] == a;
            if i == j { assert Body(a) == Body(rocks[j]); } else { assert a == rocks[i]; }
          }
        }
      }
  }

  /** A projectile touching an asteroid damages the first one it touches by its own damage;
      that asteroid is erased and one point scored exactly when its health is then <= 0,
      and otherwise it stays in place with the lower health. */
  lemma HitStepTarget(p: Projectile, rocks: seq<Asteroid>, points: int, j: nat)
    requires FirstHit(p, rocks) == Some(j)
    ensures var h := HitStep(p, rocks, points);
      && h.projectiles == []
      && (rocks[j].hp - p.damage <= 0 ==> h.asteroids == rocks[..j] + rocks[j + 1..] && h.points == points + 1)
      && (rocks[j].hp - p.damage > 0 ==>
            h.asteroids == rocks[j := rocks[j].(hp := rocks[j].hp - p.damage)] && h.points == points)
  {
  }

  /** The damage each projectile carries, in storage order. */
  function Damages(ps: seq<Projectile>): (ds: seq<int>)
    ensures |ds| == |ps| && forall i | 0 <= i < |ps| :: ds[i] == ps[i].damage
    decreases |ps|
  {
    if ps == [] then [] else [ps[0].damage] + Damages(ps[1..])
  }

  /** Projectiles that all touch one asteroid: while their summed damage stays below its health
      it takes every hit, as `ApplyHits` (and so `HitsAccumulate`) says, and stays. */
  lemma {:induction false} HitsOnOneAsteroid(ps: seq<Projectile>, a: Asteroid, points: int)
    requires forall i | 0 <= i < |ps| :: Hits(ps[i], a) && ps[i].damage >= 0
    requires Sum(Damages(ps)) < a.hp
    ensures Resolve(ps, [a], points) == HitResult([], [ApplyHits(a, Damages(ps))], points)
    ensures ApplyHits(a, Damages(ps)) == a.(hp := a.hp - Sum(Damages(ps)))
    decreases |ps|
  {
    HitsAccumulate(a, Damages(ps));
    if ps != [] {
      var hit := a.TakeDamage(ps[0].damage);
      var ds := Damages(ps);
      assert ds[1..] == Damages(ps[1..]);
      SumNonNegative(ds[1..]);
      assert FirstHit(ps[0], [a]) == Some(0);
      assert [a][0 := hit] == [hit];
      assert HitStep(ps[0], [a], points) == HitResult([], [hit], points);
      forall i | 0 <= i < |ps[1..]| ensures Hits(ps[1..][i], hit) && ps[1..][i].damage >= 0 {
        assert ps[1..][i] == ps[i + 1];
      }
      HitsOnOneAsteroid(ps[1..], hit, points);
    }
  }

  /** The hit that brings the summed damage up to the asteroid's health destroys it and
      scores one point. */
  lemma FinalHitDestroys(ps: seq<Projectile>, p: Projectile, a: Asteroid, points: int)
    requires forall i | 0 <= i < |ps| :: Hits(ps[i], a) && ps[i].damage >= 0
    requires Hits(p, a)
    requires Sum(Damages(ps)) < a.hp <= Sum(Damages(ps)) + p.damage
    ensures Resolve(ps + [p], [a], points) == HitResult([], [], points + 1)
  {
    HitsOnOneAsteroid(ps, a, points);
    ResolveAppend(ps, p, [a], points);
    var b := a.(hp := a.hp - Sum(Damages(ps)));
    assert Hits(p, b);
    assert FirstHit(p, [b]) == Some(0);
    assert [b][..0] + [b][1..] == [];
  }

  /** The score rises by exactly one per asteroid the pass erases, and the pass only erases
      or damages asteroids: it never moves one nor adds one. */
  lemma {:induction false} ResolveScore(ps: seq<Projectile>, rocks: seq<Asteroid>, points: int)
    ensures var r := Resolve(ps, rocks, points);
      && |r.asteroids| <= |rocks|
      && r.points == points + (|rocks| - |r.asteroids|)
      && Bodies(r.asteroids) <= Bodies(rocks)
    decreases |ps|
  {
    if ps != [] {
      var h := HitStep(ps[0], rocks, points);
      HitStepFacts(ps[0], rocks, points);
      ResolveScore(ps[1..], h.asteroids, h.points);
    }
  }

  /** One projectile's hit changes only health, so every asteroid after it keeps the `maxHP`
      its shape and size class started it with. */
  lemma HitStepWellFormed(p: Projectile, rocks: seq<Asteroid>, points: int)
    requires forall a | a in rocks :: WellFormed(a)
    ensures forall a | a in HitStep(p, rocks, points).asteroids :: WellFormed(a)
  {
    if FirstHit(p, rocks).Some? {
      var j := FirstHit(p, rocks).value;
      var hit := rocks[j].TakeDamage(p.damage);
      assert WellFormed(hit) by { assert rocks[j] in rocks; }
      var after := HitStep(p, rocks, points).asteroids;
      forall a | a in after ensures WellFormed(a) {
        if hit.IsDestroyed() {
          assert a in rocks[..j] || a in rocks[j + 1..];
        } else {
          var i :| 0 <= i < |after| && after[i] == a;
          if i != j { assert a == rocks[i]; }
        }
      }
    }
  }

  /** Hits change only health, so every asteroid the pass leaves keeps the `maxHP` its shape
      and size class started it with. */
  lemma {:induction false} ResolveWellFormed(ps: seq<Projectile>, rocks: seq<Asteroid>, points: int)
    requires forall a | a in rocks :: WellFormed(a)
    ensures forall a | a in Resolve(ps, rocks, points).asteroids :: WellFormed(a)
    decreases |ps|
  {
    if ps != [] {
      var h := HitStep(ps[0], rocks, points);
      HitStepWellFormed(ps[0], rocks, points);
      ResolveWellFormed(ps[1..], h.asteroids, h.points);
    }
  }

  /** Every projectile is either consumed by exactly one hit or kept: the kept ones keep
      their storage order, and none of them touches any asteroid left after the pass. */
  lemma {:induction false} ResolveKeeps(ps: seq<Projectile>, rocks: seq<Asteroid>, points: int)
    ensures var r := Resolve(ps, rocks, points);
      && IsSubsequence(r.projectiles, ps)
      && forall q, k | q in r.projectiles && 0 <= k < |r.asteroids| :: !Hits(q, r.asteroids[k])
    decreases |ps|
  {
    if ps != [] {
      var h := HitStep(ps[0], rocks, points);
      var s := Resolve(ps[1..], h.asteroids, h.points);
      HitStepFacts(ps[0], rocks, points);
      ResolveKeeps(ps[1..], h.asteroids, h.points);
      assert ps == [ps[0]] + ps[1..];
      if h.projectiles == [ps[0]] {
        SubsequenceCons(ps[0], s.projectiles, ps[1..]);
        ResolveScore(ps[1..], rocks, points);
        UntouchedSubset(ps[0], rocks, s.asteroids);
      } else {
        assert Resolve(ps, rocks, points).projectiles == s.projectiles;
        SubsequenceSkip(s.projectiles, ps[0], ps[1..]);
      }
    }
  }

  /** The storage-order tie-break is not "one hit per asteroid": two projectiles on the same
      spot both damage the same RedHeavy asteroid in one pass, and both are consumed. */
  lemma SameAsteroidHitTwice(p: Projectile, a: Asteroid)
    requires a.shape == RedHeavy && a.hp > 2 * p.damage && p.damage > 0
    requires Hits(p, a)
    ensures Resolve([p, p], [a], 0) == HitResult([], [a.(hp := a.hp - 2 * p.damage)], 0)
  {
    var a1 := a.TakeDamage(p.damage);
    assert [p, p][1..] == [p];
    assert [a][0 := a1] == [a1];
    assert Hits(p, a1);
    assert Resolve([p], [a1], 0) == HitResult([], [a1.TakeDamage(p.damage)], 0);
  }

  // ----- Ship collisions combined with the asteroid advance and cull -----

  /** Every asteroid advanced by one frame, in storage order. The asteroid counterpart of
      `MovedProjectiles`: the two `Update`s belong to unrelated types with no common interface
      in this model, so each vector gets its own. */
  function MovedAsteroids(rocks: seq<Asteroid>, dt: real): (r: seq<Asteroid>)
    ensures |r| == |rocks|
    ensures forall i | 0 <= i < |rocks| :: r[i] == rocks[i].Update(dt).0
  {
    seq(|rocks|, i requires 0 <= i < |rocks| => rocks[i].Update(dt).0)
  }

  /** Advance and cull alone: what the asteroid pass does when no ship can collide. */
  function CullAsteroids(rocks: seq<Asteroid>, dt: real): seq<Asteroid>
    decreases |rocks|
  {
    if rocks == [] then []
    else
      var (moved, keep) := rocks[0].Update(dt);
      (if keep then [moved] else []) + CullAsteroids(rocks[1..], dt)
  }

  /** The cull is exactly a filter: survivors keep their storage order, every survivor is
      inside its keep region, and every moved asteroid inside its keep region survives. */
  lemma {:induction false} CullAsteroidsIsFilter(rocks: seq<Asteroid>, dt: real)
    ensures IsSubsequence(CullAsteroids(rocks, dt), MovedAsteroids(rocks, dt))
    ensures forall b | b in CullAsteroids(rocks, dt) :: InKeep(b.pos, b.Radius())
    ensures forall i | 0 <= i < |rocks| && InKeep(rocks[i].Update(dt).0.pos, rocks[i].Radius()) ::
      rocks[i].Update(dt).0 in CullAsteroids(rocks, dt)
    ensures |CullAsteroids(rocks, dt)| == |set i | 0 <= i < |rocks| && InKeep(rocks[i].Update(dt).0.pos, rocks[i].Radius())|
    decreases |rocks|
  {
    assert |CullAsteroids(rocks, dt)| == |set i | 0 <= i < |rocks| && InKeep(rocks[i].Update(dt).0.pos, rocks[i].Radius())| by {
      CullAsteroidsCount(rocks, dt, 0);
      assert rocks[0..] == rocks;
      assert InKeepFrom(rocks, dt, 0) == set i | 0 <= i < |rocks| && InKeep(rocks[i].Update(dt).0.pos, rocks[i].Radius());
    }
    if rocks != [] {
      CullAsteroidsIsFilter(rocks[1..], dt);
      var moved := rocks[0].Update(dt).0;
      var rest := CullAsteroids(rocks[1..], dt);
      assert MovedAsteroids(rocks, dt) == [moved] + MovedAsteroids(rocks[1..], dt);
      if InKeep(moved.pos, moved.Radius()) {
        assert CullAsteroids(rocks, dt) == [moved] + rest;
        SubsequenceCons(moved, rest, MovedAsteroids(rocks[1..], dt));
      } else {
        assert CullAsteroids(rocks, dt) == rest;
        SubsequenceSkip(rest, moved, MovedAsteroids(rocks[1..], dt));
      }
      forall i | 0 <= i < |rocks| && InKeep(rocks[i].Update(dt).0.pos, rocks[i].Radius())
        ensures rocks[i].Update(dt).0 in CullAsteroids(rocks, dt)
      {
        if i > 0 {
          assert rocks[1..][i - 1] == rocks[i];
        }
      }
    }
  }

  /** The indices from `k` on whose asteroid is inside its keep region after moving. */
  function InKeepFrom(rocks: seq<Asteroid>, dt: real, k: nat): set<int>
  {
    set i | k <= i < |rocks| && InKeep(rocks[i].Update(dt).0.pos, rocks[i].Radius())
  }

  /** One survivor per such index: identical asteroids each survive on their own. */
  lemma {:induction false} CullAsteroidsCount(rocks: seq<Asteroid>, dt: real, k: nat)
    requires k <= |rocks|
    ensures |CullAsteroids(rocks[k..], dt)| == |InKeepFrom(rocks, dt, k)|
    decreases |rocks| - k
  {
    if k == |rocks| {
      assert InKeepFrom(rocks, dt, k) == {};
    } else {
      CullAsteroidsCount(rocks, dt, k + 1);
      assert rocks[k..][0] == rocks[k] && rocks[k..][1..] == rocks[k + 1..];
      var rest := InKeepFrom(rocks, dt, k + 1);
      if InKeep(rocks[k].Update(dt).0.pos, rocks[k].Radius()) {
        assert InKeepFrom(rocks, dt, k) == rest + {k};
        assert k !in rest;
      } else {
        assert InKeepFrom(rocks, dt, k) == rest;
      }
    }
  }

  /** What the combined pass leaves: the ship's status and the kept asteroids. */
  datatype ShipPassResult = ShipPassResult(status: ShipStatus, asteroids: seq<Asteroid>)

  /** The ship collision test: the asteroid, at its position before moving, touches the ship. */
  predicate Touches(shipPos: Vec2, shipRadius: real, a: Asteroid)
  {
    Overlap(shipPos, a.pos, shipRadius + a.Radius())
  }

  /** The `remove_if` predicate for one asteroid: while the ship is alive, an asteroid touching
      it damages the ship and is erased without moving; otherwise it is advanced and erased
      when it has left its keep region. Gives the new status and what is kept of the asteroid. */
  function ShipStep(s: ShipStatus, shipPos: Vec2, shipRadius: real, a: Asteroid, dt: real): (ShipStatus, seq<Asteroid>)
  {
    if s.alive && Touches(shipPos, shipRadius, a) then (s.Damage(a.Damage()), [])
    else
      var (moved, keep) := a.Update(dt);
      (s, if keep then [moved] else [])
  }

  /** The `remove_if` over asteroids: every asteroid in storage order goes through `ShipStep`.
      No point is awarded either way. */
  function ShipPass(s: ShipStatus, shipPos: Vec2, shipRadius: real, rocks: seq<Asteroid>, dt: real): ShipPassResult
    decreases |rocks|
  {
    if rocks == [] then ShipPassResult(s, [])
    else
      var (t, out) := ShipStep(s, shipPos, shipRadius, rocks[0], dt);
      var r := ShipPass(t, shipPos, shipRadius, rocks[1..], dt);
      r.(asteroids := out + r.asteroids)
  }

  /** The pass threads the ship's status through the asteroids in storage order: running it
      over `xs + [x]` is running it over `xs` and then one more `ShipStep` on `x`. */
  lemma {:induction false} ShipPassAppend(s: ShipStatus, shipPos: Vec2, shipRadius: real, xs: seq<Asteroid>, x: Asteroid, dt: real)
    ensures var r := ShipPass(s, shipPos, shipRadius, xs, dt);
      var last := ShipStep(r.status, shipPos, shipRadius, x, dt);
      ShipPass(s, shipPos, shipRadius, xs + [x], dt) == ShipPassResult(last.0, r.asteroids + last.1)
    decreases |xs|
  {
    if xs == [] {
      assert xs + [x] == [x];
    } else {
      assert (xs + [x])[0] == xs[0] && (xs + [x])[1..] == xs[1..] + [x];
      var (t, out) := ShipStep(s, shipPos, shipRadius, xs[0], dt);
      ShipPassAppend(t, shipPos, shipRadius, xs[1..], x, dt);
      var r := ShipPass(t, shipPos, shipRadius, xs[1..], dt);
      var last := ShipStep(r.status, shipPos, shipRadius, x, dt);
      assert out + (r.asteroids + last.1) == (out + r.asteroids) + last.1;
    }
  }

  /** The kept asteroids are moved asteroids, in storage order, all inside their keep region. */
  lemma {:induction false} ShipPassKept(s: ShipStatus, shipPos: Vec2, shipRadius: real, rocks: seq<Asteroid>, dt: real)
    ensures var r := ShipPass(s, shipPos, shipRadius, rocks, dt);
      && IsSubsequence(r.asteroids, MovedAsteroids(rocks, dt))
      && |r.asteroids| <= |rocks|
      && (forall b | b in r.asteroids :: InKeep(b.pos, b.Radius()))
    decreases |rocks|
  {
    if rocks != [] {
      var a := rocks[0];
      var moved := a.Update(dt).0;
      var (t, out) := ShipStep(s, shipPos, shipRadius, a, dt);
      var r := ShipPass(t, shipPos, shipRadius, rocks[1..], dt);
      ShipPassKept(t, shipPos, shipRadius, rocks[1..], dt);
      assert MovedAsteroids(rocks, dt) == [moved] + MovedAsteroids(rocks[1..], dt);
      if out == [] {
        assert ShipPass(s, shipPos, shipRadius, rocks, dt).asteroids == r.asteroids;
        SubsequenceSkip(r.asteroids, moved, MovedAsteroids(rocks[1..], dt));
      } else {
        assert out == [moved] && InKeep(moved.pos, moved.Radius());
        SubsequenceCons(moved, r.asteroids, MovedAsteroids(rocks[1..], dt));
      }
    }
  }

  /** The ship's health only drops, a dead ship is never revived, and a living consistent
      ship stays consistent. */
  lemma {:induction false} ShipPassHealth(s: ShipStatus, shipPos: Vec2, shipRadius: real, rocks: seq<Asteroid>, dt: real)
    ensures var r := ShipPass(s, shipPos, shipRadius, rocks, dt);
      && r.status.hp <= s.hp
      && (r.status.alive ==> s.alive)
      && (s.Consistent() ==> r.status.Consistent())
    decreases |rocks|
  {
    if rocks != [] {
      var t := ShipStep(s, shipPos, shipRadius, rocks[0], dt).0;
      ShipPassHealth(t, shipPos, shipRadius, rocks[1..], dt);
    }
  }

  /** With a dead ship the pass is exactly the advance-and-cull, and the status is unchanged. */
  lemma {:induction false} DeadShipPass(s: ShipStatus, shipPos: Vec2, shipRadius: real, rocks: seq<Asteroid>, dt: real)
    requires !s.alive
    ensures ShipPass(s, shipPos, shipRadius, rocks, dt) == ShipPassResult(s, CullAsteroids(rocks, dt))
    decreases |rocks|
  {
    if rocks != [] {
      DeadShipPass(s, shipPos, shipRadius, rocks[1..], dt);
    }
  }

  /** The contact damage of the asteroids touching the ship, in storage order. */
  function Touching(shipPos: Vec2, shipRadius: real, rocks: seq<Asteroid>): (ds: seq<int>)
    ensures |ds| <= |rocks|
    ensures forall i | 0 <= i < |ds| :: ds[i] >= 0
    decreases |rocks|
  {
    if rocks == [] then []
    else
      (if Touches(shipPos, shipRadius, rocks[0]) then [rocks[0].Damage()] else [])
      + Touching(shipPos, shipRadius, rocks[1..])
  }

  /** The asteroids not touching the ship, in storage order. */
  function Untouched(shipPos: Vec2, shipRadius: real, rocks: seq<Asteroid>): seq<Asteroid>
    decreases |rocks|
  {
    if rocks == [] then []
    else
      (if Touches(shipPos, shipRadius, rocks[0]) then [] else [rocks[0]])
      + Untouched(shipPos, shipRadius, rocks[1..])
  }

  /** How many asteroids, from the front, the pass tests against a living ship: all of them
      when the ship survives, otherwise up to and including the one that kills it. */
  function LivePrefix(s: ShipStatus, shipPos: Vec2, shipRadius: real, rocks: seq<Asteroid>, dt: real): (k: nat)
    ensures k <= |rocks|
    decreases |rocks|
  {
    if rocks == [] || !s.alive then 0
    else 1 + LivePrefix(ShipStep(s, shipPos, shipRadius, rocks[0], dt).0, shipPos, shipRadius, rocks[1..], dt)
  }

  /** One asteroid's effect on the ship is its contact damage, if it touches, whether or not
      the ship is still alive. */
  lemma ShipStepDamage(s: ShipStatus, shipPos: Vec2, shipRadius: real, a: Asteroid, dt: real, ds: seq<int>)
    ensures ApplyDamages(s, (if Touches(shipPos, shipRadius, a) then [a.Damage()] else []) + ds)
      == ApplyDamages(ShipStep(s, shipPos, shipRadius, a, dt).0, ds)
  {
    if Touches(shipPos, shipRadius, a) {
      assert ([a.Damage()] + ds)[1..] == ds;
    } else {
      assert [] + ds == ds;
    }
  }

  /** The ship ends the pass exactly as if the contact damage of every touching asteroid were
      applied to it in storage order; with `DamageRun`, its health is `hp - Σ damage` and it
      dies exactly when that is <= 0. */
  lemma {:induction false} ShipPassDamage(s: ShipStatus, shipPos: Vec2, shipRadius: real, rocks: seq<Asteroid>, dt: real)
    ensures ShipPass(s, shipPos, shipRadius, rocks, dt).status == ApplyDamages(s, Touching(shipPos, shipRadius, rocks))
    decreases |rocks|
  {
    if rocks != [] {
      var t := ShipStep(s, shipPos, shipRadius, rocks[0], dt).0;
      ShipPassDamage(t, shipPos, shipRadius, rocks[1..], dt);
      ShipStepDamage(s, shipPos, shipRadius, rocks[0], dt, Touching(shipPos, shipRadius, rocks[1..]));
    }
  }

  /** For a living consistent ship: it survives the pass exactly when its health exceeds the
      summed contact damage of the asteroids touching it, and then its health is the difference. */
  lemma ShipPassOutcome(s: ShipStatus, shipPos: Vec2, shipRadius: real, rocks: seq<Asteroid>, dt: real)
    requires s.alive && s.hp > 0
    ensures var r := ShipPass(s, shipPos, shipRadius, rocks, dt);
      var total := Sum(Touching(shipPos, shipRadius, rocks));
      && (r.status.alive <==> s.hp - total > 0)
      && (r.status.alive ==> r.status.hp == s.hp - total)
  {
    ShipPassDamage(s, shipPos, shipRadius, rocks, dt);
    DamageRun(s, Touching(shipPos, shipRadius, rocks));
  }

  /** The whole pass, exactly. With `k` its live prefix: the ship is alive before each of the
      first `k` asteroids and dead after them unless `k` is all of them; of those `k`, every
      one touching the ship is erased and the rest go through the advance and cull; the
      asteroids after them only go through the advance and cull. */
  lemma ShipPassExact(s: ShipStatus, shipPos: Vec2, shipRadius: real, rocks: seq<Asteroid>, dt: real)
    ensures var k := LivePrefix(s, shipPos, shipRadius, rocks, dt);
      && ShipPass(s, shipPos, shipRadius, rocks, dt).asteroids
        == CullAsteroids(Untouched(shipPos, shipRadius, rocks[..k]), dt) + CullAsteroids(rocks[k..], dt)
      && (forall i | 0 <= i < k :: ApplyDamages(s, Touching(shipPos, shipRadius, rocks[..i])).alive)
      && (k < |rocks| ==> !ApplyDamages(s, Touching(shipPos, shipRadius, rocks[..k])).alive)
  {
    LivePrefixAsteroids(s, shipPos, shipRadius, rocks, dt);
    LivePrefixAlive(s, shipPos, shipRadius, rocks, dt);
  }

  /** The asteroids half of `ShipPassExact`. */
  lemma {:induction false} LivePrefixAsteroids(s: ShipStatus, shipPos: Vec2, shipRadius: real, rocks: seq<Asteroid>, dt: real)
    ensures var k := LivePrefix(s, shipPos, shipRadius, rocks, dt);
      ShipPass(s, shipPos, shipRadius, rocks, dt).asteroids
        == CullAsteroids(Untouched(shipPos, shipRadius, rocks[..k]), dt) + CullAsteroids(rocks[k..], dt)
    decreases |rocks|
  {
    if rocks == [] || !s.alive {
      DeadOrEmptyPass(s, shipPos, shipRadius, rocks, dt);
    } else {
      var a, rest := rocks[0], rocks[1..];
      var step := ShipStep(s, shipPos, shipRadius, a, dt);
      var k' := LivePrefix(step.0, shipPos, shipRadius, rest, dt);
      LivePrefixAsteroids(step.0, shipPos, shipRadius, rest, dt);
      var x := CullAsteroids(Untouched(shipPos, shipRadius, rest[..k']), dt);
      var y := CullAsteroids(rest[k'..], dt);
      ShipPassCons(s, shipPos, shipRadius, rocks, dt);
      assert rocks == [a] + rest;
      assert LivePrefix(s, shipPos, shipRadius, rocks, dt) == k' + 1;
      PrefixCons(a, rest, k');
      UntouchedCull(s, shipPos, shipRadius, a, rest[..k'], dt);
      assert step.1 + (x + y) == (step.1 + x) + y;
    }
  }

  /** The ship half of `ShipPassExact`: alive before each asteroid of the live prefix, dead
      after it unless the prefix is everything. */
  lemma {:induction false} LivePrefixAlive(s: ShipStatus, shipPos: Vec2, shipRadius: real, rocks: seq<Asteroid>, dt: real)
    ensures var k := LivePrefix(s, shipPos, shipRadius, rocks, dt);
      && (forall i | 0 <= i < k :: ApplyDamages(s, Touching(shipPos, shipRadius, rocks[..i])).alive)
      && (k < |rocks| ==> !ApplyDamages(s, Touching(shipPos, shipRadius, rocks[..k])).alive)
    decreases |rocks|
  {
    if rocks == [] || !s.alive {
      DeadOrEmptyPass(s, shipPos, shipRadius, rocks, dt);
    } else {
      var a, rest := rocks[0], rocks[1..];
      var t := ShipStep(s, shipPos, shipRadius, a, dt).0;
      LivePrefixAlive(t, shipPos, shipRadius, rest, dt);
      assert rocks == [a] + rest;
      var k := LivePrefix(s, shipPos, shipRadius, rocks, dt);
      forall i | 0 < i <= k
        ensures ApplyDamages(s, Touching(shipPos, shipRadius, rocks[..i]))
          == ApplyDamages(t, Touching(shipPos, shipRadius, rest[..i - 1]))
      {
        PrefixCons(a, rest, i - 1);
        ShipStepDamage(s, shipPos, shipRadius, a, dt, Touching(shipPos, shipRadius, rest[..i - 1]));
      }
      assert rocks[..0] == [];
    }
  }

  /** One step of the pass: the first asteroid, then the rest from the status it leaves. */
  lemma ShipPassCons(s: ShipStatus, shipPos: Vec2, shipRadius: real, rocks: seq<Asteroid>, dt: real)
    requires rocks != []
    ensures var step := ShipStep(s, shipPos, shipRadius, rocks[0], dt);
      ShipPass(s, shipPos, shipRadius, rocks, dt).asteroids
        == step.1 + ShipPass(step.0, shipPos, shipRadius, rocks[1..], dt).asteroids
  {
  }

  /** `ShipPassExact` when nothing is tested against a living ship. */
  lemma DeadOrEmptyPass(s: ShipStatus, shipPos: Vec2, shipRadius: real, rocks: seq<Asteroid>, dt: real)
    requires rocks == [] || !s.alive
    ensures ShipPass(s, shipPos, shipRadius, rocks, dt).asteroids == CullAsteroids(rocks, dt)
    ensures rocks != [] ==> !ApplyDamages(s, Touching(shipPos, shipRadius, rocks[..0])).alive
  {
    if rocks != [] {
      DeadShipPass(s, shipPos, shipRadius, rocks, dt);
      assert rocks[..0] == [];
    }
  }

  /** Splitting the first asteroid off a prefix. */
  lemma PrefixCons(a: Asteroid, rest: seq<Asteroid>, n: nat)
    requires n <= |rest|
    ensures var rocks := [a] + rest;
      && rocks[..n + 1] == [a] + rest[..n] && rocks[n + 1..] == rest[n..]
      && rocks[..n + 1][0] == a && rocks[..n + 1][1..] == rest[..n]
  {
  }

  /** Culling the untouched asteroids of `[a] + xs` handles `a` the way `ShipStep` does for
      a living ship. */
  lemma UntouchedCull(s: ShipStatus, shipPos: Vec2, shipRadius: real, a: Asteroid, xs: seq<Asteroid>, dt: real)
    requires s.alive
    ensures CullAsteroids(Untouched(shipPos, shipRadius, [a] + xs), dt)
      == ShipStep(s, shipPos, shipRadius, a, dt).1 + CullAsteroids(Untouched(shipPos, shipRadius, xs), dt)
  {
    assert ([a] + xs)[0] == a && ([a] + xs)[1..] == xs;
    var u := Untouched(shipPos, shipRadius, xs);
    if Touches(shipPos, shipRadius, a) {
      assert Untouched(shipPos, shipRadius, [a] + xs) == u;
    } else {
      assert Untouched(shipPos, shipRadius, [a] + xs) == [a] + u;
      assert ([a] + u)[0] == a && ([a] + u)[1..] == u;
    }
  }

  /** An asteroid that does not touch the ship and stays inside its keep region after moving
      is kept, whatever happens to the ship. */
  lemma {:induction false} ShipPassKeepsUntouched(s: ShipStatus, shipPos: Vec2, shipRadius: real, rocks: seq<Asteroid>, dt: real)
    ensures forall i | 0 <= i < |rocks| && !Touches(shipPos, shipRadius, rocks[i])
        && InKeep(rocks[i].Update(dt).0.pos, rocks[i].Radius()) ::
      rocks[i].Update(dt).0 in ShipPass(s, shipPos, shipRadius, rocks, dt).asteroids
    decreases |rocks|
  {
    if rocks != [] {
      var t := ShipStep(s, shipPos, shipRadius, rocks[0], dt).0;
      ShipPassKeepsUntouched(t, shipPos, shipRadius, rocks[1..], dt);
      forall i | 0 <= i < |rocks| && !Touches(shipPos, shipRadius, rocks[i])
          && InKeep(rocks[i].Update(dt).0.pos, rocks[i].Radius())
        ensures rocks[i].Update(dt).0 in ShipPass(s, shipPos, shipRadius, rocks, dt).asteroids
      {
        if i > 0 {
          assert rocks[1..][i - 1] == rocks[i];
        }
      }
    }
  }

  /** A full-health ship touching a large RedHeavy asteroid: health 100 - 80 = 20, still alive,
      and the asteroid is gone. */
  lemma HeavyCollision(a: Asteroid, shipPos: Vec2, shipRadius: real, dt: real)
    requires a.shape == RedHeavy && a.size == Large
    requires Overlap(shipPos, a.pos, shipRadius + a.Radius())
    ensures ShipPass(ShipStatus(100, true), shipPos, shipRadius, [a], dt)
      == ShipPassResult(ShipStatus(20, true), [])
  {
  }
}
