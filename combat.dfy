/** The records the server keeps (players and rockets), the events it emits,
    and the damage/death/respawn protocol that server/index.js repeats for the
    rail (lines 239-253), the pellet guns (lines 270-285) and rocket splash
    (lines 328-340). */
module Combat {
  import opened Geometry
  import opened Seqs
  import opened Weapons

  type PlayerId = string
  type ProjectileId = string

  const MaxHealth: int := 100

  /** One connected client (server/index.js:152-164). `lastShootAt` is
      `lastShootAtByWeapon`, timestamps in milliseconds. */
  datatype Player = Player(
    id: PlayerId,
    name: string,
    position: Vec,
    rotation: Vec,
    health: int,
    lastShootAt: map<string, int>,
    currentWeapon: string,
    inventory: map<string, bool>,
    kills: nat,
    deaths: nat,
    joinedAt: int)

  /** One rocket in flight (server/index.js:224-230). */
  datatype Projectile = Projectile(
    id: ProjectileId,
    owner: PlayerId,
    position: Vec,
    velocity: Vec,
    ttlAt: int)

  /** What `broadcastWorld` publishes of a player. */
  datatype PlayerView = PlayerView(
    id: PlayerId, name: string, position: Vec, rotation: Vec,
    health: int, weapon: string, kills: nat, deaths: nat)

  datatype ProjectileView = ProjectileView(id: ProjectileId, position: Vec)

  /** Every emit of the core, with its addressee where it is sent to one
      socket (`to`). `Spawned`, `Exploded` and `WorldState` go to everybody. */
  datatype Event =
    | Init(to: PlayerId, you: Player, roster: seq<Player>)
    | Hit(to: PlayerId, health: int, byId: PlayerId)
    | ConfirmHit(to: PlayerId, targetId: PlayerId, remaining: int)
    | Died(to: PlayerId, respawn: Vec, killerId: PlayerId)
    | Spawned(id: ProjectileId, owner: PlayerId, position: Vec)
    | Exploded(id: ProjectileId, position: Vec)
    | WorldState(views: seq<PlayerView>, rockets: seq<ProjectileView>)

  /** The two registries: the `players` and `projectiles` maps, each with
      its insertion order, which is the order JavaScript iterates them in. */
  datatype World = World(
    players: map<PlayerId, Player>,
    order: seq<PlayerId>,
    projectiles: map<ProjectileId, Projectile>,
    projOrder: seq<ProjectileId>)

  /** A new registry of players together with what was emitted. */
  datatype Effect = Effect(players: map<PlayerId, Player>, events: seq<Event>)

  /** A new world together with what was emitted. */
  datatype Outcome = Outcome(world: World, events: seq<Event>)

  /** `arenaSpawns` (server/index.js:47-54). */
  const ArenaSpawns: seq<Vec> := [
    Vec(0.0, 1.6, 0.0), Vec(10.0, 1.6, 10.0), Vec(-12.0, 1.6, 8.0),
    Vec(15.0, 1.6, -14.0), Vec(-18.0, 1.6, -6.0), Vec(6.0, 1.6, -12.0)
  ]

  /** `randomSpawn()`: the random draw is supplied as a natural number, and
      whatever it is, the result is one of the fixed spawn points. */
  function SpawnPoint(draw: nat): (v: Vec)
    ensures v in ArenaSpawns
  {
    ArenaSpawns[draw % |ArenaSpawns|]
  }

  /** What a player looks like between two handlers. */
  predicate PlayerValid(id: PlayerId, p: Player) {
    && p.id == id
    && 0 < p.health <= MaxHealth
    && p.inventory == FullInventory
    && Owns(p.inventory, p.currentWeapon)
  }

  /** Every registered player is valid under its own key. */
  predicate PlayersValid(ps: map<PlayerId, Player>) {
    forall id :: id in ps ==> PlayerValid(id, ps[id])
  }

  /** Every key of each map occurs exactly once in its order. */
  predicate WorldValid(w: World) {
    && Distinct(w.order)
    && (forall id :: id in w.players ==> id in w.order)
    && (forall id :: id in w.order ==> id in w.players)
    && PlayersValid(w.players)
    && Distinct(w.projOrder)
    && (forall id :: id in w.projectiles ==> id in w.projOrder)
    && (forall id :: id in w.projOrder ==> id in w.projectiles)
    && (forall id :: id in w.projectiles ==> w.projectiles[id].id == id)
  }

  function MaxInt(a: int, b: int): int { if a >= b then a else b }

  /** True when a hit of `dmg` kills a player of health `health`: the
      health is above zero before and at or below zero after the clamped
      subtraction (edge-triggered). */
  predicate Kills(health: int, dmg: nat) {
    health > 0 && MaxInt(0, health - dmg) <= 0
  }

  /** The damage protocol: `target.health = Math.max(0, target.health - dmg)`,
      a `hit` to the target and a `confirm_hit` to the attacker; on a kill the
      attacker (when still registered) gains a kill, the target a death, a
      spawn position and full health, and is sent `died`. */
  function Struck(ps: map<PlayerId, Player>, targetId: PlayerId, attackerId: PlayerId, dmg: nat, spawn: Vec): (e: Effect)
    requires targetId in ps
    ensures e.players.Keys == ps.Keys
  {
    var t := ps[targetId];
    var h := MaxInt(0, t.health - dmg);
    var told := [Hit(targetId, h, attackerId), ConfirmHit(attackerId, targetId, h)];
    if t.health > 0 && h <= 0 then
      var ps1 := ps[targetId := t.(health := MaxHealth, position := spawn, deaths := t.deaths + 1)];
      var ps2 := if attackerId in ps1 then ps1[attackerId := ps1[attackerId].(kills := ps1[attackerId].kills + 1)] else ps1;
      Effect(ps2, told + [Died(targetId, spawn, attackerId)])
    else
      Effect(ps[targetId := t.(health := h)], told)
  }

  /** How many `hit` events are addressed to `t`. */
  function HitsTo(evs: seq<Event>, t: PlayerId): nat {
    if evs == [] then 0
    else HitsTo(evs[..|evs| - 1], t) + (if evs[|evs| - 1].Hit? && evs[|evs| - 1].to == t then 1 else 0)
  }

  /** How many `confirm_hit` events report on target `t`. */
  function ConfirmsOf(evs: seq<Event>, t: PlayerId): nat {
    if evs == [] then 0
    else ConfirmsOf(evs[..|evs| - 1], t) + (if evs[|evs| - 1].ConfirmHit? && evs[|evs| - 1].targetId == t then 1 else 0)
  }

  /** How many `projectile_explode` events name projectile `id`. */
  function ExplosionsOf(evs: seq<Event>, id: ProjectileId): nat {
    if evs == [] then 0
    else ExplosionsOf(evs[..|evs| - 1], id) + (if evs[|evs| - 1].Exploded? && evs[|evs| - 1].id == id then 1 else 0)
  }

  /** How many `died` events are addressed to `t`. */
  function DiedTo(evs: seq<Event>, t: PlayerId): nat {
    if evs == [] then 0
    else DiedTo(evs[..|evs| - 1], t) + (if evs[|evs| - 1].Died? && evs[|evs| - 1].to == t then 1 else 0)
  }

  lemma {:induction false} CountsAppend(a: seq<Event>, b: seq<Event>, t: string)
    ensures HitsTo(a + b, t) == HitsTo(a, t) + HitsTo(b, t)
    ensures DiedTo(a + b, t) == DiedTo(a, t) + DiedTo(b, t)
    ensures ConfirmsOf(a + b, t) == ConfirmsOf(a, t) + ConfirmsOf(b, t)
    ensures ExplosionsOf(a + b, t) == ExplosionsOf(a, t) + ExplosionsOf(b, t)
    decreases |b|
  {
    if b != [] {
      var b' := b[..|b| - 1];
      assert (a + b)[..|a + b| - 1] == a + b';
      CountsAppend(a, b', t);
    } else {
      assert a + b == a;
    }
  }

  /** The target of a hit: its health stays within `[0, MaxHealth]`, and it
      gains a death, a spawn point and full health exactly when the hit
      kills it; otherwise its health is the clamped difference and nothing
      else of it changes. A target already at zero is not counted again. */
  lemma StruckTarget(ps: map<PlayerId, Player>, targetId: PlayerId, attackerId: PlayerId, dmg: nat, spawn: Vec)
    requires targetId in ps && 0 <= ps[targetId].health <= MaxHealth
    requires spawn in ArenaSpawns
    ensures var t, t' := ps[targetId], Struck(ps, targetId, attackerId, dmg, spawn).players[targetId];
      && 0 <= t'.health <= MaxHealth
      && (t.health > 0 ==> t'.health > 0)
      && t'.deaths == t.deaths + (if Kills(t.health, dmg) then 1 else 0)
      && (Kills(t.health, dmg) ==> t'.health == MaxHealth && t'.position == spawn && t'.position in ArenaSpawns)
      && (!Kills(t.health, dmg) ==> t' == t.(health := MaxInt(0, t.health - dmg)))
      && (t.health <= 0 ==> t'.kills == t.kills && t'.deaths == t.deaths)
  {
  }

  /** The target's whole record after a hit, whatever its health before,
      apart from the kill a self-inflicted hit adds. */
  lemma StruckRecord(ps: map<PlayerId, Player>, targetId: PlayerId, attackerId: PlayerId, dmg: nat, spawn: Vec)
    requires targetId in ps
    ensures var t, t' := ps[targetId], Struck(ps, targetId, attackerId, dmg, spawn).players[targetId];
      && (Kills(t.health, dmg) ==> t'.(kills := t.kills) == t.(health := MaxHealth, position := spawn, deaths := t.deaths + 1))
      && (!Kills(t.health, dmg) ==> t'.(kills := t.kills) == t.(health := MaxInt(0, t.health - dmg)))
      && (attackerId != targetId ==> t'.kills == t.kills)
  {
  }

  /** The attacker of a hit on someone else gains exactly one kill when the
      hit kills, and nothing else of it changes; a self-inflicted kill (rocket
      splash on its owner) counts both a kill and a death; nobody else is
      touched. */
  lemma StruckOthers(ps: map<PlayerId, Player>, targetId: PlayerId, attackerId: PlayerId, dmg: nat, spawn: Vec)
    requires targetId in ps
    ensures var ps' := Struck(ps, targetId, attackerId, dmg, spawn).players;
      && (attackerId in ps && attackerId != targetId ==>
            ps'[attackerId] == ps[attackerId].(kills := ps[attackerId].kills + (if Kills(ps[targetId].health, dmg) then 1 else 0)))
      && (attackerId == targetId ==>
            ps'[targetId].kills == ps[targetId].kills + (if Kills(ps[targetId].health, dmg) then 1 else 0))
      && (forall u :: u in ps && u != targetId && u != attackerId ==> ps'[u] == ps[u])
  {
  }

  /** One hit first sends `hit` to its target with the clamped health and
      the attacker's id, then `confirm_hit` to the attacker naming the
      target and the same health. In all, it emits exactly one `hit` to its
      target and one `confirm_hit` about it, a `died` to the target exactly when the hit kills it (naming
      the attacker and the spawn point the target now stands on), and never
      a `projectile_explode`. */
  lemma StruckEvents(ps: map<PlayerId, Player>, targetId: PlayerId, attackerId: PlayerId, dmg: nat, spawn: Vec, u: string)
    requires targetId in ps
    ensures var e := Struck(ps, targetId, attackerId, dmg, spawn);
      var evs := e.events;
      var h := MaxInt(0, ps[targetId].health - dmg);
      && 2 <= |evs| <= 3
      && evs[0] == Hit(targetId, h, attackerId)
      && evs[1] == ConfirmHit(attackerId, targetId, h)
      && HitsTo(evs, u) == (if u == targetId then 1 else 0)
      && ConfirmsOf(evs, u) == (if u == targetId then 1 else 0)
      && DiedTo(evs, u) == (if u == targetId && Kills(ps[targetId].health, dmg) then 1 else 0)
      && (Kills(ps[targetId].health, dmg) ==> evs[|evs| - 1] == Died(targetId, e.players[targetId].position, attackerId))
      && ExplosionsOf(evs, u) == 0
  {
    var evs := Struck(ps, targetId, attackerId, dmg, spawn).events;
    CountsSingle(evs[0], u);
    CountsSingle(evs[1], u);
    CountsAppend([evs[0]], [evs[1]], u);
    assert evs[..2] == [evs[0]] + [evs[1]];
    if |evs| == 3 {
      CountsSingle(evs[2], u);
      CountsAppend(evs[..2], [evs[2]], u);
      assert evs == evs[..2] + [evs[2]];
    } else {
      assert evs == evs[..2];
    }
  }

  lemma CountsSingle(e: Event, t: string)
    ensures HitsTo([e], t) == (if e.Hit? && e.to == t then 1 else 0)
    ensures DiedTo([e], t) == (if e.Died? && e.to == t then 1 else 0)
    ensures ConfirmsOf([e], t) == (if e.ConfirmHit? && e.targetId == t then 1 else 0)
    ensures ExplosionsOf([e], t) == (if e.Exploded? && e.id == t then 1 else 0)
  {
    assert [e][..0] == [];
  }

  /** The fields a hit never touches: a hit changes only health, position
      and the score. */
  predicate SameLoadout(p: Player, q: Player) {
    && p.id == q.id && p.name == q.name && p.rotation == q.rotation
    && p.lastShootAt == q.lastShootAt && p.currentWeapon == q.currentWeapon
    && p.inventory == q.inventory && p.joinedAt == q.joinedAt
  }

  lemma StruckKeepsLoadout(ps: map<PlayerId, Player>, targetId: PlayerId, attackerId: PlayerId, dmg: nat, spawn: Vec)
    requires targetId in ps
    ensures var ps' := Struck(ps, targetId, attackerId, dmg, spawn).players;
      forall u :: u in ps ==> SameLoadout(ps[u], ps'[u])
  {
  }

  /** A hit keeps every player of a valid world valid. */
  lemma StruckKeepsPlayersValid(ps: map<PlayerId, Player>, targetId: PlayerId, attackerId: PlayerId, dmg: nat, spawn: Vec)
    requires targetId in ps
    requires PlayersValid(ps)
    ensures PlayersValid(Struck(ps, targetId, attackerId, dmg, spawn).players)
  {
  }
}
