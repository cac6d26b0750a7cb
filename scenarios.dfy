/** Two concrete duels on the model: a rifle hit down the z axis, and a
    second rifle shot inside the cooldown. */
module Scenarios {
  import opened Options
  import opened Seqs
  import opened Geometry
  import opened Weapons
  import opened Combat
  import opened Raycast
  import opened Handlers

  /** The shooter fires the rifle from (0, 1.6, 0) straight along +z. */
  const RifleAlongZ: ShootMsg :=
    ShootMsg("rifle", Some(RawVec(Some(0.0), Some(1.6), Some(0.0))), Some(RawVec(Some(0.0), Some(0.0), Some(1.0))))

  /** A duel: shooter `a` at (0, 1.6, 0), target `b` z units ahead along
      the z axis and within rifle range, in that iteration order. */
  predicate Duel(w: World, a: PlayerId, b: PlayerId, z: real) {
    && WorldValid(w) && w.order == [a, b] && a != b && a != ""
    && 0.0 <= z <= 120.0
    && w.players[a].position == Vec(0.0, 1.6, 0.0)
    && w.players[b].position == Vec(0.0, 1.6, z)
  }

  lemma AimAlongZ(s: Player, sqrt: real -> real)
    requires s.position == Vec(0.0, 1.6, 0.0) && sqrt(1.0) == 1.0
    ensures AimOrigin(RifleAlongZ.origin.value, s.position) == Vec(0.0, 1.6, 0.0)
    ensures Normalize(AimDirection(RifleAlongZ.direction.value), sqrt) == Vec(0.0, 0.0, 1.0)
  {
    assert RifleAlongZ.origin.value == RawVec(Some(0.0), Some(1.6), Some(0.0));
    assert RifleAlongZ.direction.value == RawVec(Some(0.0), Some(0.0), Some(1.0));
    assert AimDirection(RawVec(Some(0.0), Some(0.0), Some(1.0))) == Vec(0.0, 0.0, 1.0);
    UnitZ(sqrt);
  }

  lemma UnitZ(sqrt: real -> real)
    requires sqrt(1.0) == 1.0
    ensures Normalize(Vec(0.0, 0.0, 1.0), sqrt) == Vec(0.0, 0.0, 1.0)
  {
    assert Dot(Vec(0.0, 0.0, 1.0), Vec(0.0, 0.0, 1.0)) == 1.0;
    assert Length(Vec(0.0, 0.0, 1.0), sqrt) == 1.0;
  }

  /** With no spread the rifle's pellet flies along the aim. */
  lemma NoSpread(u: (real, real), sqrt: real -> real)
    requires sqrt(1.0) == 1.0
    ensures PelletDirection(Vec(0.0, 0.0, 1.0), 0.0, u, sqrt) == Vec(0.0, 0.0, 1.0)
  {
    assert Vec(0.0 + (u.0 * 2.0 - 1.0) * 0.0, 0.0 + (u.1 * 2.0 - 1.0) * 0.0, 1.0) == Vec(0.0, 0.0, 1.0);
    UnitZ(sqrt);
  }

  /** Of two players where only the second is reachable, the second is
      the first hit. */
  lemma SecondOfTwo(ps: map<PlayerId, Player>, x: PlayerId, y: PlayerId, o: Vec, d: Vec, range: real, exclude: PlayerId)
    requires y in ps && !Eligible(ps, x, o, d, range, exclude) && Eligible(ps, y, o, d, range, exclude)
    ensures FirstHitIn(ps, [x, y], o, d, range, exclude) == Some(RayHit(y, FwdOf(ps, y, o, d)))
  {
    assert [x][..0] == [];
    assert FirstHitIn(ps, [x], o, d, range, exclude) == None;
    assert [x, y][..1] == [x];
  }

  /** A target standing at (0, 1.6, z), with z within the rifle's range,
      lies on the ray from (0, 1.6, 0) along +z, z units ahead. */
  lemma TargetAhead(ps: map<PlayerId, Player>, a: PlayerId, b: PlayerId, z: real)
    requires b in ps && a != b && 0.0 <= z <= 120.0
    requires ps[b].position == Vec(0.0, 1.6, z)
    ensures Eligible(ps, b, Vec(0.0, 1.6, 0.0), Vec(0.0, 0.0, 1.0), 120.0, a)
    ensures FwdOf(ps, b, Vec(0.0, 1.6, 0.0), Vec(0.0, 0.0, 1.0)) == z
  {
    var p, o, d := ps[b].position, Vec(0.0, 1.6, 0.0), Vec(0.0, 0.0, 1.0);
    assert Sub(p, o) == Vec(0.0, 0.0, z);
    assert Forward(p, o, d) == z;
    assert Vec(o.x + d.x * z, o.y + d.y * z, o.z + d.z * z) == p;
    assert DistSqToRay(p, o, d, 120.0) == 0.0;
  }

  /** The first hit along +z from (0, 1.6, 0), skipping `a`, is `b` at
      forward distance z. */
  lemma FirstHitIsB(ps: map<PlayerId, Player>, a: PlayerId, b: PlayerId, z: real)
    requires a in ps && b in ps && a != b && a != "" && 0.0 <= z <= 120.0
    requires ps[b].position == Vec(0.0, 1.6, z)
    ensures FirstHitIn(ps, [a, b], Vec(0.0, 1.6, 0.0), Vec(0.0, 0.0, 1.0), 120.0, a) == Some(RayHit(b, z))
  {
    TargetAhead(ps, a, b, z);
    SecondOfTwo(ps, a, b, Vec(0.0, 1.6, 0.0), Vec(0.0, 0.0, 1.0), 120.0, a);
  }

  /** The rifle's single pellet, aimed along +z, first hits `b`. */
  lemma RifleHits(ps: map<PlayerId, Player>, a: PlayerId, b: PlayerId, z: real,
                  sqrt: real -> real, jitter: nat -> (real, real))
    requires a in ps && b in ps && a != b && a != "" && 0.0 <= z <= 120.0
    requires ps[b].position == Vec(0.0, 1.6, z)
    requires sqrt(1.0) == 1.0
    ensures PelletHits(ps, [a, b], Vec(0.0, 1.6, 0.0), Vec(0.0, 0.0, 1.0), 0.0, 120.0, a, jitter, sqrt, 1)
      == [Some(RayHit(b, z))]
  {
    NoSpread(jitter(0), sqrt);
    FirstHitIsB(ps, a, b, z);
  }

  /** One pellet on `b` tallies one target and 25 damage. */
  lemma OneHitTally(b: PlayerId, z: real)
    ensures TallyOf([Some(RayHit(b, z))], 25) == Tally([b], map[b := 25])
  {
    assert [Some(RayHit(b, z))][..0] == [];
  }

  /** Striking a single target is one `Struck` on it, with the first spawn
      draw. */
  lemma StrikeOne(ps: map<PlayerId, Player>, b: PlayerId, attacker: PlayerId, dmg: nat, draw: nat -> nat)
    requires b in ps
    ensures var e := Struck(ps, b, attacker, dmg, SpawnPoint(draw(0)));
      StrikeEach(ps, [b], map[b := dmg], attacker, draw) == Effect(e.players, e.events)
  {
    assert [b][..0] == [];
  }

  /** 25 damage on a full-health player leaves 75 and tells both sides. */
  lemma QuarterOff(ps: map<PlayerId, Player>, b: PlayerId, a: PlayerId, spawn: Vec)
    requires b in ps && ps[b].health == MaxHealth
    ensures var e := Struck(ps, b, a, 25, spawn);
      e.players[b].health == 75 && e.events == [Hit(b, 75, a), ConfirmHit(a, b, 75)]
  {
  }

  /** A rifle hit on a full-health `b` anywhere within range leaves it at
      75 health, and the shooter is told 75 remain. */
  lemma RifleScenario(w: World, a: PlayerId, b: PlayerId, z: real, now: int,
                      sqrt: real -> real, jitter: nat -> (real, real), projId: ProjectileId, draw: nat -> nat)
    requires Duel(w, a, b, z) && w.players[b].health == MaxHealth
    requires now >= LastShotAt(w.players[a], "rifle") + 180
    requires sqrt(1.0) == 1.0
    ensures var o := Shoot(w, a, RifleAlongZ, now, sqrt, jitter, projId, draw);
      && o.world.players[b].health == 75
      && o.events == [Hit(b, 75, a), ConfirmHit(a, b, 75)]
  {
    CatalogEntries();
    AimAlongZ(w.players[a], sqrt);
    assert Admitted(w.players[a], "rifle", now);
    ShootFires(w, a, RifleAlongZ, now, sqrt, jitter, projId, draw);
    var w1 := Stamp(w, a, "rifle", now);
    assert w1.players[b] == w.players[b] && w1.order == [a, b];
    RifleHits(w1.players, a, b, z, sqrt, jitter);
    OneHitTally(b, z);
    StrikeOne(w1.players, b, a, 25, draw);
    QuarterOff(w1.players, b, a, SpawnPoint(draw(0)));
  }

  /** After an admitted rifle shot at `now`, a second one 50 ms later
      (inside the 180 ms cooldown) changes nothing and emits nothing; the
      recorded time stays `now`. */
  lemma CooldownScenario(w: World, a: PlayerId, b: PlayerId, z: real, now: int,
                         sqrt: real -> real, jitter: nat -> (real, real), draw: nat -> nat)
    requires Duel(w, a, b, z)
    requires now >= LastShotAt(w.players[a], "rifle") + 180
    ensures var o1 := Shoot(w, a, RifleAlongZ, now, sqrt, jitter, "r1", draw);
      && LastShotAt(o1.world.players[a], "rifle") == now
      && Shoot(o1.world, a, RifleAlongZ, now + 50, sqrt, jitter, "r2", draw) == Outcome(o1.world, [])
  {
    CatalogEntries();
    assert Admitted(w.players[a], "rifle", now);
    ShootStamps(w, a, RifleAlongZ, now, sqrt, jitter, "r1", draw);
    var o1 := Shoot(w, a, RifleAlongZ, now, sqrt, jitter, "r1", draw);
    ShootIgnored(o1.world, a, RifleAlongZ, now + 50, sqrt, jitter, "r2", draw);
  }
}
