/** The server's mutable state and its handlers as imperative code: the
    `players` and `projectiles` maps of server/index.js (lines 42-45) with
    their iteration orders, and the log of everything emitted. Every
    handler is proved to do what its function in `Handlers` or
    `Projectiles` describes. */
module Server {
  import opened Options
  import opened Seqs
  import opened Geometry
  import opened Weapons
  import opened Combat
  import opened Raycast
  import opened Handlers
  import opened Projectiles

  class Server {
    var players: map<PlayerId, Player>
    var order: seq<PlayerId>
    var projectiles: map<ProjectileId, Projectile>
    var projOrder: seq<ProjectileId>
    /** Every emit so far, oldest first. */
    var events: seq<Event>

    function World(): World
      reads this
    {
      Combat.World(players, order, projectiles, projOrder)
    }

    ghost predicate Valid()
      reads this
    {
      WorldValid(World())
    }

    constructor()
      ensures World() == Combat.World(map[], [], map[], []) && events == []
      ensures Valid()
    {
      players := map[];
      order := [];
      projectiles := map[];
      projOrder := [];
      events := [];
    }

    /** `connection`. */
    method Connect(id: PlayerId, queryName: string, uuid: string, draw: nat, now: int)
      requires Valid()
      modifies this
      ensures World() == Handlers.Connect(old(World()), id, queryName, uuid, draw, now).world
      ensures events == old(events) + Handlers.Connect(old(World()), id, queryName, uuid, draw, now).events
      ensures Valid()
    {
      ConnectKeepsValid(World(), id, queryName, uuid, draw, now);
      var name := DisplayName(queryName, uuid);
      var p := NewPlayer(id, name, SpawnPoint(draw), now);
      if id !in players {
        order := order + [id];
      }
      players := players[id := p];
      events := events + [Init(id, p, Roster(players, order))];
    }

    /** `state`. */
    method UpdateState(id: PlayerId, msg: StateMsg)
      requires Valid()
      modifies this
      ensures World() == Handlers.UpdateState(old(World()), id, msg)
      ensures events == old(events)
      ensures Valid()
    {
      UpdateStateKeepsValid(World(), id, msg);
      if id !in players {
        return;
      }
      var p := players[id];
      if msg.position.Some? {
        p := p.(position := ClampPosition(msg.position.value));
      }
      if msg.rotation.Some? {
        p := p.(rotation := ClampRotation(msg.rotation.value));
      }
      if msg.weapon.Some? && Owns(p.inventory, msg.weapon.value) {
        p := p.(currentWeapon := msg.weapon.value);
      }
      players := players[id := p];
    }

    /** `disconnect`. */
    method Disconnect(id: PlayerId)
      requires Valid()
      modifies this
      ensures World() == Handlers.Disconnect(old(World()), id)
      ensures events == old(events)
      ensures Valid()
    {
      DisconnectRemoves(World(), id);
      players := players - {id};
      order := Without(order, id);
    }

    /** The damage protocol on the live registry. */
    method Strike(targetId: PlayerId, attackerId: PlayerId, dmg: nat, spawn: Vec)
      requires targetId in players
      modifies this
      ensures players == Struck(old(players), targetId, attackerId, dmg, spawn).players
      ensures events == old(events) + Struck(old(players), targetId, attackerId, dmg, spawn).events
      ensures order == old(order) && projectiles == old(projectiles) && projOrder == old(projOrder)
    {
      var target := players[targetId];
      var wasAlive := target.health > 0;
      target := target.(health := MaxInt(0, target.health - dmg));
      players := players[targetId := target];
      events := events + [Hit(targetId, target.health, attackerId), ConfirmHit(attackerId, targetId, target.health)];
      if wasAlive && target.health <= 0 {
        if attackerId in players {
          players := players[attackerId := players[attackerId].(kills := players[attackerId].kills + 1)];
        }
        target := players[targetId];
        players := players[targetId := target.(deaths := target.deaths + 1, position := spawn, health := MaxHealth)];
        events := events + [Died(targetId, spawn, attackerId)];
      }
    }

    /** Each target of `targets` in turn takes `dmg[t]`; targets no longer
        registered are skipped. */
    method StrikeAll(targets: seq<PlayerId>, dmg: map<PlayerId, nat>, attacker: PlayerId, draw: nat -> nat)
      requires forall t :: t in targets ==> t in dmg
      modifies this
      ensures players == StrikeEach(old(players), targets, dmg, attacker, draw).players
      ensures events == old(events) + StrikeEach(old(players), targets, dmg, attacker, draw).events
      ensures order == old(order) && projectiles == old(projectiles) && projOrder == old(projOrder)
    {
      ghost var ps0 := players;
      ghost var ev0 := events;
      for i := 0 to |targets|
        invariant players == StrikeEach(ps0, targets[..i], dmg, attacker, draw).players
        invariant events == ev0 + StrikeEach(ps0, targets[..i], dmg, attacker, draw).events
        invariant order == old(order) && projectiles == old(projectiles) && projOrder == old(projOrder)
      {
        assert targets[..i + 1][..i] == targets[..i];
        var targetId := targets[i];
        if targetId !in players {
          continue;
        }
        Strike(targetId, attacker, dmg[targetId], SpawnPoint(draw(i)));
      }
      assert targets[..|targets|] == targets;
    }

    /** The rocket launcher. */
    method LaunchRocket(owner: PlayerId, projId: ProjectileId, origin: Vec, velocity: Vec, ttlAt: int)
      modifies this
      ensures World() == Launch(old(World()), owner, projId, origin, velocity, ttlAt).world
      ensures events == old(events) + Launch(old(World()), owner, projId, origin, velocity, ttlAt).events
    {
      var projectile := Projectile(projId, owner, origin, velocity, ttlAt);
      if projId !in projectiles {
        projOrder := projOrder + [projId];
      }
      projectiles := projectiles[projId := projectile];
      events := events + [Spawned(projId, owner, projectile.position)];
    }

    /** The pellet loop: one first-hit ray per pellet, summing each
        target's damage in `damageByTarget`. */
    method TallyPellets(origin: Vec, baseDir: Vec, pellets: nat, spread: real, damage: nat, range: real,
                        shooterId: PlayerId, jitter: nat -> (real, real), sqrt: real -> real) returns (t: Tally)
      requires AllRegistered(players, order)
      ensures t == TallyOf(PelletHits(players, order, origin, baseDir, spread, range, shooterId, jitter, sqrt, pellets), damage)
    {
      var ps, ids := players, order;
      var targets: seq<PlayerId> := [];
      var damageByTarget: map<PlayerId, nat> := map[];
      for i := 0 to pellets
        invariant Tally(targets, damageByTarget)
          == TallyOf(PelletHits(ps, ids, origin, baseDir, spread, range, shooterId, jitter, sqrt, i), damage)
      {
        PelletTallyStep(ps, ids, origin, baseDir, spread, range, shooterId, jitter, sqrt, i, damage);
        var dir := PelletDirection(baseDir, spread, jitter(i), sqrt);
        targets, damageByTarget := CastPellet(ps, ids, origin, dir, damage, range, shooterId, targets, damageByTarget);
      }
      t := Tally(targets, damageByTarget);
    }

    /** One pellet of the loop: its first hit, if any, adds `damage` to its
        target's entry in `damageByTarget`, listing the target on its first
        hit. */
    static method CastPellet(ps: map<PlayerId, Player>, ids: seq<PlayerId>, origin: Vec, dir: Vec, damage: nat, range: real,
                             shooterId: PlayerId, targets: seq<PlayerId>, damageByTarget: map<PlayerId, nat>)
      returns (targets': seq<PlayerId>, damageByTarget': map<PlayerId, nat>)
      requires AllRegistered(ps, ids)
      ensures Tally(targets', damageByTarget')
        == TallyAdd(Tally(targets, damageByTarget), FirstHitIn(ps, ids, origin, dir, range, shooterId), damage)
    {
      var hit := RaycastFirstHit(ps, ids, origin, dir, range, shooterId);
      targets', damageByTarget' := targets, damageByTarget;
      if hit.Some? {
        var id := hit.value.target;
        var prev := if id in damageByTarget then damageByTarget[id] else 0;
        if id !in damageByTarget {
          targets' := targets + [id];
        }
        damageByTarget' := damageByTarget[id := prev + damage];
      }
    }

    /** The weapon acts on an admitted, aimed shot. */
    method FireWeapon(shooterId: PlayerId, weapon: Weapon, origin: Vec, baseDir: Vec, now: int,
                      sqrt: real -> real, jitter: nat -> (real, real), projId: ProjectileId, draw: nat -> nat)
      requires Valid()
      modifies this
      ensures World() == Fire(old(World()), shooterId, weapon, origin, baseDir, now, sqrt, jitter, projId, draw).world
      ensures events == old(events) + Fire(old(World()), shooterId, weapon, origin, baseDir, now, sqrt, jitter, projId, draw).events
      ensures Valid()
    {
      FireKeepsValid(World(), shooterId, weapon, origin, baseDir, now, sqrt, jitter, projId, draw);
      match weapon
      case Launcher(_, speed, ttlMs, _, _) =>
        LaunchRocket(shooterId, projId, origin, Scale(baseDir, speed), now + ttlMs);
      case Hitscan(_, pellets, spread, damage, range, pierce) =>
        if pierce {
          var hits := RaycastAllHits(players, order, origin, baseDir, range, shooterId);
          StrikeAll(Targets(hits), PierceDamage(hits, damage), shooterId, draw);
        } else {
          var t := TallyPellets(origin, baseDir, pellets, spread, damage, range, shooterId, jitter, sqrt);
          TallyTargets(PelletHits(players, order, origin, baseDir, spread, range, shooterId, jitter, sqrt, pellets), damage);
          StrikeAll(t.targets, t.damage, shooterId, draw);
        }
    }

    /** `shoot`. */
    method Shoot(shooterId: PlayerId, msg: ShootMsg, now: int,
                 sqrt: real -> real, jitter: nat -> (real, real), projId: ProjectileId, draw: nat -> nat)
      requires Valid()
      modifies this
      ensures World() == Handlers.Shoot(old(World()), shooterId, msg, now, sqrt, jitter, projId, draw).world
      ensures events == old(events) + Handlers.Shoot(old(World()), shooterId, msg, now, sqrt, jitter, projId, draw).events
      ensures Valid()
    {
      ghost var w0 := World();
      if shooterId in players {
        var shooter := players[shooterId];
        var key := WeaponKey(shooter, msg);
        if Admitted(shooter, key, now) {
          ShootStamps(w0, shooterId, msg, now, sqrt, jitter, projId, draw);
          RecordShot(shooterId, key, now);
          if msg.origin.Some? && msg.direction.Some? {
            var origin := AimOrigin(msg.origin.value, shooter.position);
            var baseDir := Normalize(AimDirection(msg.direction.value), sqrt);
            ShootFires(w0, shooterId, msg, now, sqrt, jitter, projId, draw);
            FireWeapon(shooterId, Catalog[key], origin, baseDir, now, sqrt, jitter, projId, draw);
          }
        }
      }
    }

    /** `shooter.lastShootAtByWeapon[weaponKey] = now`. */
    method RecordShot(shooterId: PlayerId, key: string, now: int)
      requires Valid() && shooterId in players
      modifies this
      ensures World() == Stamp(old(World()), shooterId, key, now)
      ensures events == old(events)
      ensures Valid()
    {
      StampKeepsValid(World(), shooterId, key, now);
      var shooter := players[shooterId];
      players := players[shooterId := shooter.(lastShootAt := shooter.lastShootAt[key := now])];
    }

    /** The proximity loop: is any player other than the owner within
        distance 1 of the rocket? */
    method ProximityTriggered(pr: Projectile) returns (near: bool)
      requires AllRegistered(players, order)
      ensures near == NearNonOwner(players, order, pr)
    {
      near := false;
      var k := 0;
      while k < |order|
        invariant 0 <= k <= |order|
        invariant !near
        invariant forall j :: 0 <= j < k && order[j] != pr.owner ==> DistSq(players[order[j]].position, pr.position) > 1.0
      {
        var pid := order[k];
        if pid != pr.owner {
          var pl := players[pid];
          var d2 := DistSq(pl.position, pr.position);
          if d2 <= 1.0 {
            near := true;
            return;
          }
        }
        k := k + 1;
      }
    }

    /** The splash loop over every player. */
    method SplashAround(center: Vec, owner: PlayerId, draw: nat -> nat)
      requires AllRegistered(players, order)
      modifies this
      ensures players == Splash(old(players), old(order), center, owner, draw).players
      ensures events == old(events) + Splash(old(players), old(order), center, owner, draw).events
      ensures order == old(order) && projectiles == old(projectiles) && projOrder == old(projOrder)
    {
      ghost var ps0 := players;
      ghost var ev0 := events;
      var ids := order;
      for i := 0 to |ids|
        invariant AllRegistered(ps0, ids[..i])
        invariant players == Splash(ps0, ids[..i], center, owner, draw).players
        invariant events == ev0 + Splash(ps0, ids[..i], center, owner, draw).events
        invariant order == old(order) && projectiles == old(projectiles) && projOrder == old(projOrder)
      {
        ghost var before := Splash(ps0, ids[..i], center, owner, draw);
        SplashExtend(ps0, ids, i, center, owner, draw);
        var pl := players[ids[i]];
        var d2 := DistSq(pl.position, center);
        if d2 <= SplashRadiusSq {
          var dmg := SplashDamage(d2);
          if dmg > 0 {
            ghost var struck := Struck(before.players, ids[i], owner, dmg, SpawnPoint(draw(i)));
            Strike(ids[i], owner, dmg, SpawnPoint(draw(i)));
            AppendAssoc(ev0, before.events, struck.events);
          }
        }
      }
      assert ids[..|ids|] == ids;
    }

    /** One iteration of the projectile loop. */
    method StepRocket(id: ProjectileId, now: int, draw: nat -> nat)
      requires AllRegistered(players, order)
      modifies this
      ensures World() == StepProjectile(old(World()), id, now, draw).world
      ensures events == old(events) + StepProjectile(old(World()), id, now, draw).events
    {
      if id !in projectiles {
        return;
      }
      var pr := projectiles[id];
      pr := pr.(position := Add(pr.position, Scale(pr.velocity, Dt)));
      var shouldExplode := pr.position.y <= 0.5 || now >= pr.ttlAt;
      if !shouldExplode {
        shouldExplode := ProximityTriggered(pr);
      }
      if shouldExplode {
        SplashAround(pr.position, pr.owner, draw);
        events := events + [Exploded(pr.id, pr.position)];
        projectiles := projectiles - {id};
        projOrder := Without(projOrder, id);
      } else {
        projectiles := projectiles[id := pr];
      }
    }

    /** The world tick: every rocket of a snapshot steps, then the world is
        broadcast. */
    method Tick(now: int, draws: nat -> nat -> nat)
      requires Valid()
      modifies this
      ensures World() == Projectiles.Tick(old(World()), now, draws).world
      ensures events == old(events) + Projectiles.Tick(old(World()), now, draws).events
      ensures Valid()
    {
      ghost var w0 := World();
      ghost var ev0 := events;
      var snapshot := projOrder;
      for j := 0 to |snapshot|
        invariant World() == TickSteps(w0, snapshot[..j], now, draws).world
        invariant events == ev0 + TickSteps(w0, snapshot[..j], now, draws).events
      {
        ghost var before := TickSteps(w0, snapshot[..j], now, draws);
        ghost var step := StepProjectile(before.world, snapshot[j], now, draws(j));
        TickStepsExtend(w0, snapshot, j, now, draws);
        StepRocket(snapshot[j], now, draws(j));
        assert World() == step.world;
        AppendAssoc(ev0, before.events, step.events);
      }
      assert snapshot[..|snapshot|] == snapshot;
      TickStepsFate(w0, snapshot, now, draws);
      events := events + [Broadcast(World())];
    }
  }
}
