/** The socket handlers of server/index.js as functions from the world
    before to the world after plus the emitted events: `connection`
    (lines 148-171), `state` (173-193), `shoot` (195-286) and `disconnect`
    (288-290). */
module Handlers {
  import opened Options
  import opened Seqs
  import opened Geometry
  import opened Weapons
  import opened Combat
  import opened Raycast

  // ---------------------------------------------------------------------
  // Registry lifecycle

  /** `Array.from(players.values())`. */
  function Roster(ps: map<PlayerId, Player>, order: seq<PlayerId>): (r: seq<Player>)
    requires AllRegistered(ps, order)
    ensures |r| == |order| && forall k :: 0 <= k < |order| ==> r[k] == ps[order[k]]
  {
    seq(|order|, k requires 0 <= k < |order| => ps[order[k]])
  }

  /** `(query.name || 'Player-' + uuidv4().slice(0, 4)).toString()`. */
  function DisplayName(queryName: string, uuid: string): string {
    if queryName != "" then queryName
    else "Player-" + uuid[..if |uuid| < 4 then |uuid| else 4]
  }

  /** The record created on connection. */
  function NewPlayer(id: PlayerId, name: string, spawn: Vec, now: int): Player {
    Player(id, name, spawn, Zero, MaxHealth, map[], DefaultWeapon, FullInventory, 0, 0, now)
  }

  /** Stores `p` under its id; a known id keeps its place in iteration
      order. */
  function Join(w: World, p: Player): World {
    var order := if p.id in w.players then w.order else w.order + [p.id];
    w.(players := w.players[p.id := p], order := order)
  }

  /** `connection`: the new player is stored under its socket id and sent
      `init`. */
  function Connect(w: World, id: PlayerId, queryName: string, uuid: string, draw: nat, now: int): (o: Outcome)
    requires AllRegistered(w.players, w.order)
    ensures o.world.players.Keys == w.players.Keys + {id} && AllRegistered(o.world.players, o.world.order)
    ensures |o.events| == 1 && o.events[0].Init? && o.events[0].to == id && o.events[0].you == o.world.players[id]
  {
    var p := NewPlayer(id, DisplayName(queryName, uuid), SpawnPoint(draw), now);
    var w' := Join(w, p);
    assert forall k :: 0 <= k < |w'.order| ==> w'.order[k] in w'.players by {
      forall k | 0 <= k < |w'.order| ensures w'.order[k] in w'.players {
        if k < |w.order| { assert w'.order[k] == w.order[k]; }
      }
    }
    Outcome(w', [Init(id, p, Roster(w'.players, w'.order))])
  }

  lemma JoinKeepsValid(w: World, p: Player)
    requires WorldValid(w) && PlayerValid(p.id, p)
    ensures var w' := Join(w, p);
      && WorldValid(w')
      && w'.players.Keys == w.players.Keys + {p.id}
      && (forall u :: u in w.players && u != p.id ==> w'.players[u] == w.players[u])
      && w'.projectiles == w.projectiles && w'.projOrder == w.projOrder
  {
    if p.id !in w.players {
      AppendDistinct(w.order, p.id);
    }
  }

  /** `disconnect`: `players.delete(id)`. Rockets the player fired stay in
      flight. */
  function Disconnect(w: World, id: PlayerId): (r: World)
    ensures r.players.Keys == w.players.Keys - {id} && id !in r.order
    ensures r.projectiles == w.projectiles && r.projOrder == w.projOrder
  {
    w.(players := w.players - {id}, order := Without(w.order, id))
  }

  /** `connection` keeps the world well formed and leaves everybody else
      and every rocket as they were. */
  lemma ConnectKeepsValid(w: World, id: PlayerId, queryName: string, uuid: string, draw: nat, now: int)
    requires WorldValid(w)
    ensures var w' := Connect(w, id, queryName, uuid, draw, now).world;
      && WorldValid(w')
      && w'.players.Keys == w.players.Keys + {id}
      && (forall u :: u in w.players && u != id ==> w'.players[u] == w.players[u])
      && w'.projectiles == w.projectiles && w'.projOrder == w.projOrder
  {
    JoinKeepsValid(w, NewPlayer(id, DisplayName(queryName, uuid), SpawnPoint(draw), now));
  }

  /** The newcomer starts at full health on one of the arena's spawn points
      with the rifle, no score and no cooldowns, and is sent `init` with a
      roster that includes itself. */
  lemma ConnectNewPlayer(w: World, id: PlayerId, queryName: string, uuid: string, draw: nat, now: int)
    requires WorldValid(w)
    ensures var o := Connect(w, id, queryName, uuid, draw, now);
      && id in o.world.players
      && (var p := o.world.players[id];
          && p.health == MaxHealth && p.position in ArenaSpawns && p.kills == 0 && p.deaths == 0
          && p.currentWeapon == "rifle" && p.lastShootAt == map[] && p.joinedAt == now
          && p.name == (if queryName != "" then queryName else "Player-" + uuid[..if |uuid| < 4 then |uuid| else 4])
          && o.events == [Init(id, p, o.events[0].roster)]
          && p in o.events[0].roster)
  {
    var o := Connect(w, id, queryName, uuid, draw, now);
    assert id in o.world.order;
    var k :| 0 <= k < |o.world.order| && o.world.order[k] == id;
    assert o.events[0].roster[k] == o.world.players[id];
  }

  /** After `disconnect` the player is gone, nobody else changed, the world
      is still well formed, and a second `disconnect` changes nothing. */
  lemma DisconnectRemoves(w: World, id: PlayerId)
    requires WorldValid(w)
    ensures var w' := Disconnect(w, id);
      && WorldValid(w')
      && w'.players.Keys == w.players.Keys - {id}
      && (forall u :: u in w'.players ==> w'.players[u] == w.players[u])
      && Disconnect(w', id) == w'
  {
    var w' := Disconnect(w, id);
    WithoutDistinct(w.order, id);
    assert PlayersValid(w'.players);
    WithoutNothing(w'.order, id);
    assert w'.players - {id} == w'.players;
  }

  lemma {:induction false} WithoutNothing(s: seq<PlayerId>, x: PlayerId)
    requires x !in s
    ensures Without(s, x) == s
  {
    if s != [] {
      WithoutNothing(s[..|s| - 1], x);
      assert s == s[..|s| - 1] + [s[|s| - 1]];
    }
  }

  // ---------------------------------------------------------------------
  // The `state` message

  /** `Math.PI` as the double it is. */
  const Pi: real := 3.141592653589793115997963468544185161590576171875

  /** `data.rotation` when present with a finite `y`; `x` is absent when
      `undefined` or `null` (then `?? 0` applies). */
  datatype RotationIn = RotationIn(x: Option<real>, y: real)

  /** A `state` message: `position` is present when it is an object with a
      finite `x`; `weapon` when it is a string. */
  datatype StateMsg = StateMsg(position: Option<Vec>, rotation: Option<RotationIn>, weapon: Option<string>)

  predicate InArena(v: Vec) {
    -1000.0 <= v.x <= 1000.0 && -10.0 <= v.y <= 1000.0 && -1000.0 <= v.z <= 1000.0
  }

  predicate InAngles(v: Vec) {
    -Pi <= v.x <= Pi && -Pi <= v.y <= Pi && v.z == 0.0
  }

  /** The position clamp of the `state` handler: the result is in the
      arena, and a position already inside is kept. */
  function ClampPosition(v: Vec): (r: Vec)
    ensures InArena(r)
    ensures InArena(v) ==> r == v
  {
    Vec(Clamp(v.x, -1000.0, 1000.0), Clamp(v.y, -10.0, 1000.0), Clamp(v.z, -1000.0, 1000.0))
  }

  /** The rotation clamp: pitch and yaw within `[-PI, PI]`, roll zero, and
      in-range angles kept. */
  function ClampRotation(r: RotationIn): (v: Vec)
    ensures InAngles(v)
    ensures -Pi <= r.x.GetOr(0.0) <= Pi && -Pi <= r.y <= Pi ==> v == Vec(r.x.GetOr(0.0), r.y, 0.0)
  {
    Vec(Clamp(r.x.GetOr(0.0), -Pi, Pi), Clamp(r.y, -Pi, Pi), 0.0)
  }

  /** The weapon switch: applied only when the player owns the requested
      weapon, so the held weapon stays an owned one. */
  function SwitchWeapon(p: Player, requested: Option<string>): (q: Player)
    ensures Owns(p.inventory, p.currentWeapon) ==> Owns(q.inventory, q.currentWeapon)
    ensures requested.Some? && Owns(p.inventory, requested.value) ==> q.currentWeapon == requested.value
    ensures q.currentWeapon != p.currentWeapon ==> requested == Some(q.currentWeapon)
    ensures q == p.(currentWeapon := q.currentWeapon)
  {
    if requested.Some? && Owns(p.inventory, requested.value) then p.(currentWeapon := requested.value) else p
  }

  /** The weapon switch as the server writes it, where `p.inventory[w]` also
      answers the members of `Object.prototype`. */
  function SwitchWeaponAsWritten(p: Player, requested: Option<string>): (q: Player)
    ensures q == p.(currentWeapon := q.currentWeapon)
  {
    if requested.Some? && OwnsAsWritten(p.inventory, requested.value) then p.(currentWeapon := requested.value) else p
  }

  /** As written, a `state` message with `weapon: "constructor"` makes a
      valid player hold a weapon that is neither owned nor in the table;
      the corrected switch refuses it. */
  lemma SwitchWeaponAsWrittenAcceptsPrototypeName(p: Player)
    requires PlayerValid(p.id, p)
    ensures var q := SwitchWeaponAsWritten(p, Some("constructor"));
      q.currentWeapon == "constructor" && q.currentWeapon !in Catalog && !PlayerValid(p.id, q)
    ensures SwitchWeapon(p, Some("constructor")) == p
  {
    PrototypeNameAccepted();
  }

  /** The `state` handler on one player: position and rotation are clamped
      field by field when present, the weapon switched when owned, and
      nothing else changes. */
  function Sanitize(p: Player, msg: StateMsg): (q: Player)
    ensures msg.position.Some? ==> InArena(q.position) && (InArena(msg.position.value) ==> q.position == msg.position.value)
    ensures msg.position.None? ==> q.position == p.position
    ensures msg.rotation.Some? ==> InAngles(q.rotation)
    ensures msg.rotation.None? ==> q.rotation == p.rotation
    ensures PlayerValid(p.id, p) ==> PlayerValid(p.id, q)
    ensures q == p.(position := q.position, rotation := q.rotation, currentWeapon := q.currentWeapon)
  {
    var p1 := if msg.position.Some? then p.(position := ClampPosition(msg.position.value)) else p;
    var p2 := if msg.rotation.Some? then p1.(rotation := ClampRotation(msg.rotation.value)) else p1;
    SwitchWeapon(p2, msg.weapon)
  }

  /** `state`: ignored for a socket whose player is gone. */
  function UpdateState(w: World, id: PlayerId, msg: StateMsg): (r: World)
    ensures r.players.Keys == w.players.Keys && r.order == w.order
    ensures r.projectiles == w.projectiles && r.projOrder == w.projOrder
    ensures forall u :: u in w.players && u != id ==> r.players[u] == w.players[u]
  {
    if id in w.players then w.(players := w.players[id := Sanitize(w.players[id], msg)]) else w
  }

  lemma UpdateStateKeepsValid(w: World, id: PlayerId, msg: StateMsg)
    requires WorldValid(w)
    ensures var w' := UpdateState(w, id, msg);
      && WorldValid(w')
      && w'.players.Keys == w.players.Keys
      && (forall u :: u in w.players && u != id ==> w'.players[u] == w.players[u])
  {
  }

  // ---------------------------------------------------------------------
  // The `shoot` message

  /** A vector field of a `shoot` message, each coordinate absent when
      `Number(...)` of it is not a number. */
  datatype RawVec = RawVec(x: Option<real>, y: Option<real>, z: Option<real>)

  /** A `shoot` message; `weapon` is the empty string when missing (it is
      falsy either way). */
  datatype ShootMsg = ShootMsg(weapon: string, origin: Option<RawVec>, direction: Option<RawVec>)

  /** `Number(v) || fallback`: not-a-number and zero both fall back. */
  function OrElse(v: Option<real>, fallback: real): real {
    if v.Some? && v.value != 0.0 then v.value else fallback
  }

  /** The shot's origin: each zero or missing coordinate is the shooter's. */
  function AimOrigin(raw: RawVec, at: Vec): Vec {
    Vec(OrElse(raw.x, at.x), OrElse(raw.y, at.y), OrElse(raw.z, at.z))
  }

  /** The shot's direction before normalising: missing x and y are 0, a
      missing or zero z is 1, so the direction is never the zero vector. */
  function AimDirection(raw: RawVec): (v: Vec)
    ensures v.z != 0.0
  {
    Vec(OrElse(raw.x, 0.0), OrElse(raw.y, 0.0), OrElse(raw.z, 1.0))
  }

  /** `data?.weapon || shooter.currentWeapon`. */
  function WeaponKey(p: Player, msg: ShootMsg): string {
    if msg.weapon != "" then msg.weapon else p.currentWeapon
  }

  /** `shooter.lastShootAtByWeapon[weaponKey] || 0`. */
  function LastShotAt(p: Player, key: string): int {
    if key in p.lastShootAt then p.lastShootAt[key] else 0
  }

  /** The shot passes every gate: the weapon exists, is owned, and its
      cooldown has elapsed. */
  predicate Admitted(p: Player, key: string, now: int) {
    key in Catalog && Owns(p.inventory, key) && !(now - LastShotAt(p, key) < Catalog[key].cooldownMs)
  }

  /** The direction of pellet `i`: the base direction with both random
      offsets `(Math.random() * 2 - 1) * spread` added, normalised. */
  function PelletDirection(base: Vec, spread: real, u: (real, real), sqrt: real -> real): Vec {
    Normalize(Vec(base.x + (u.0 * 2.0 - 1.0) * spread, base.y + (u.1 * 2.0 - 1.0) * spread, base.z), sqrt)
  }

  /** The first hit of each of the first `n` pellets, all cast against the
      same registry. `jitter(i)` is the pair of random numbers of pellet
      `i`. */
  function PelletHits(ps: map<PlayerId, Player>, order: seq<PlayerId>, origin: Vec, base: Vec, spread: real, range: real,
                      exclude: PlayerId, jitter: nat -> (real, real), sqrt: real -> real, n: nat): (r: seq<Option<RayHit>>)
    ensures |r| == n
  {
    if n == 0 then []
    else
      var dir := PelletDirection(base, spread, jitter(n - 1), sqrt);
      PelletHits(ps, order, origin, base, spread, range, exclude, jitter, sqrt, n - 1)
        + [FirstHitIn(ps, order, origin, dir, range, exclude)]
  }

  /** `damageByTarget`: the targets in order of first hit, and the summed
      damage of each. */
  datatype Tally = Tally(targets: seq<PlayerId>, damage: map<PlayerId, nat>)

  /** One pellet's contribution to `damageByTarget`: a miss adds nothing;
      a hit adds `perHit` to its target, listing the target on its first
      hit. */
  function TallyAdd(t: Tally, hit: Option<RayHit>, perHit: nat): Tally {
    match hit
    case None => t
    case Some(h) =>
      if h.target in t.damage then Tally(t.targets, t.damage[h.target := t.damage[h.target] + perHit])
      else Tally(t.targets + [h.target], t.damage[h.target := perHit])
  }

  /** Builds `damageByTarget` from the pellets' hits. */
  function TallyOf(hits: seq<Option<RayHit>>, perHit: nat): (t: Tally)
    ensures |t.targets| <= |hits|
  {
    if hits == [] then Tally([], map[])
    else TallyAdd(TallyOf(hits[..|hits| - 1], perHit), hits[|hits| - 1], perHit)
  }

  /** The tally of `n + 1` pellets adds the first hit of pellet `n`. */
  lemma PelletTallyStep(ps: map<PlayerId, Player>, order: seq<PlayerId>, origin: Vec, base: Vec, spread: real, range: real,
                        exclude: PlayerId, jitter: nat -> (real, real), sqrt: real -> real, n: nat, perHit: nat)
    ensures TallyOf(PelletHits(ps, order, origin, base, spread, range, exclude, jitter, sqrt, n + 1), perHit)
      == TallyAdd(TallyOf(PelletHits(ps, order, origin, base, spread, range, exclude, jitter, sqrt, n), perHit),
                  FirstHitIn(ps, order, origin, PelletDirection(base, spread, jitter(n), sqrt), range, exclude), perHit)
  {
    var hits := PelletHits(ps, order, origin, base, spread, range, exclude, jitter, sqrt, n + 1);
    assert hits[..n] == PelletHits(ps, order, origin, base, spread, range, exclude, jitter, sqrt, n);
  }

  /** How many pellets first hit player `id`. */
  function PelletsOn(hits: seq<Option<RayHit>>, id: PlayerId): nat {
    if hits == [] then 0
    else PelletsOn(hits[..|hits| - 1], id) + (if hits[|hits| - 1] == None || hits[|hits| - 1].value.target != id then 0 else 1)
  }

  /** `damageByTarget` lists each target once, in order of first hit. */
  lemma {:induction false} TallyTargets(hits: seq<Option<RayHit>>, perHit: nat)
    ensures var t := TallyOf(hits, perHit);
      Distinct(t.targets) && forall id :: id in t.targets <==> id in t.damage
  {
    if hits != [] {
      var init := hits[..|hits| - 1];
      TallyTargets(init, perHit);
      var t := TallyOf(init, perHit);
      if hits[|hits| - 1].Some? && hits[|hits| - 1].value.target !in t.damage {
        AppendDistinct(t.targets, hits[|hits| - 1].value.target);
      }
    }
  }

  /** One pellet changes only its target's entry, by `perHit`. */
  lemma TallyAddDamage(t: Tally, hit: Option<RayHit>, perHit: nat, id: PlayerId)
    ensures var t' := TallyAdd(t, hit, perHit);
      var on := hit.Some? && hit.value.target == id;
      && (id in t'.damage <==> id in t.damage || on)
      && (id in t'.damage ==> t'.damage[id] == (if id in t.damage then t.damage[id] else 0) + (if on then perHit else 0))
  {
  }

  lemma MulSucc(a: nat, c: nat)
    ensures a * (c + 1) == a * c + a
  {
  }

  /** A player is in `damageByTarget` exactly when some pellet hit it, with
      `damage` times the number of pellets that hit it. */
  lemma {:induction false} TallyDamage(hits: seq<Option<RayHit>>, perHit: nat, id: PlayerId)
    ensures var t := TallyOf(hits, perHit);
      && (id in t.damage <==> PelletsOn(hits, id) > 0)
      && (id in t.damage ==> t.damage[id] == perHit * PelletsOn(hits, id))
  {
    if hits != [] {
      var init := hits[..|hits| - 1];
      var last := hits[|hits| - 1];
      TallyDamage(init, perHit, id);
      TallyAddDamage(TallyOf(init, perHit), last, perHit, id);
      var c := PelletsOn(init, id);
      if last.Some? && last.value.target == id {
        assert PelletsOn(hits, id) == c + 1;
        MulSucc(perHit, c);
      } else {
        assert PelletsOn(hits, id) == c;
      }
    }
  }

  /** The damage protocol applied to each player of `targets` in turn, with
      `dmg[t]` and the spawn draw of its position; a target no longer
      registered is skipped. */
  function StrikeEach(ps: map<PlayerId, Player>, targets: seq<PlayerId>, dmg: map<PlayerId, nat>, attacker: PlayerId, draw: nat -> nat): (e: Effect)
    requires forall t :: t in targets ==> t in dmg
    ensures e.players.Keys == ps.Keys
  {
    if targets == [] then Effect(ps, [])
    else
      var n := |targets| - 1;
      var e := StrikeEach(ps, targets[..n], dmg, attacker, draw);
      var t := targets[n];
      if t in e.players then
        var e' := Struck(e.players, t, attacker, dmg[t], SpawnPoint(draw(n)));
        Effect(e'.players, e.events + e'.events)
      else e
  }

  /** Every struck target ends within `[1, MaxHealth]` and every player
      stays valid. */
  lemma {:induction false} StrikeEachKeepsValid(ps: map<PlayerId, Player>, targets: seq<PlayerId>, dmg: map<PlayerId, nat>, attacker: PlayerId, draw: nat -> nat)
    requires forall t :: t in targets ==> t in dmg
    requires PlayersValid(ps)
    ensures PlayersValid(StrikeEach(ps, targets, dmg, attacker, draw).players)
  {
    if targets != [] {
      var n := |targets| - 1;
      StrikeEachKeepsValid(ps, targets[..n], dmg, attacker, draw);
      var e := StrikeEach(ps, targets[..n], dmg, attacker, draw);
      if targets[n] in e.players {
        StruckKeepsPlayersValid(e.players, targets[n], attacker, dmg[targets[n]], SpawnPoint(draw(n)));
      }
    }
  }

  /** One `hit` and one `confirm_hit` per distinct registered target, a
      `died` to each target the damage kills (judged on its health before
      the shot), none of these for anybody else, and no explosion. */
  lemma {:induction false} StrikeEachEvents(ps: map<PlayerId, Player>, targets: seq<PlayerId>, dmg: map<PlayerId, nat>, attacker: PlayerId, draw: nat -> nat, u: string)
    requires forall t :: t in targets ==> t in dmg
    requires Distinct(targets)
    ensures var evs := StrikeEach(ps, targets, dmg, attacker, draw).events;
      && HitsTo(evs, u) == (if u in targets && u in ps then 1 else 0)
      && ConfirmsOf(evs, u) == (if u in targets && u in ps then 1 else 0)
      && DiedTo(evs, u) == (if u in targets && u in ps && Kills(ps[u].health, dmg[u]) then 1 else 0)
      && ExplosionsOf(evs, u) == 0
  {
    if targets != [] {
      var n := |targets| - 1;
      var init := targets[..n];
      assert Distinct(init);
      assert targets == init + [targets[n]];
      StrikeEachEvents(ps, init, dmg, attacker, draw, u);
      var e := StrikeEach(ps, init, dmg, attacker, draw);
      var t := targets[n];
      if t in e.players {
        assert t !in init;
        StrikeEachHealth(ps, init, dmg, attacker, draw, t);
        var e' := Struck(e.players, t, attacker, dmg[t], SpawnPoint(draw(n)));
        StruckEvents(e.players, t, attacker, dmg[t], SpawnPoint(draw(n)), u);
        CountsAppend(e.events, e'.events, u);
      }
    }
  }

  /** Nobody but the attacker and the targets struck so far is changed, and
      the attacker only in its kill count. */
  lemma {:induction false} StrikeEachFrame(ps: map<PlayerId, Player>, targets: seq<PlayerId>, dmg: map<PlayerId, nat>, attacker: PlayerId, draw: nat -> nat, u: PlayerId)
    requires forall t :: t in targets ==> t in dmg
    requires u in ps && u !in targets && u != attacker
    ensures StrikeEach(ps, targets, dmg, attacker, draw).players[u] == ps[u]
  {
    if targets != [] {
      var n := |targets| - 1;
      StrikeEachFrame(ps, targets[..n], dmg, attacker, draw, u);
      var e := StrikeEach(ps, targets[..n], dmg, attacker, draw);
      if targets[n] in e.players {
        StruckOthers(e.players, targets[n], attacker, dmg[targets[n]], SpawnPoint(draw(n)));
      }
    }
  }

  /** Striking others never changes a player's health. */
  lemma {:induction false} StrikeEachHealth(ps: map<PlayerId, Player>, targets: seq<PlayerId>, dmg: map<PlayerId, nat>, attacker: PlayerId, draw: nat -> nat, u: PlayerId)
    requires forall t :: t in targets ==> t in dmg
    requires u in ps && u !in targets
    ensures StrikeEach(ps, targets, dmg, attacker, draw).players[u].health == ps[u].health
  {
    if targets != [] {
      var n := |targets| - 1;
      StrikeEachHealth(ps, targets[..n], dmg, attacker, draw, u);
      var e := StrikeEach(ps, targets[..n], dmg, attacker, draw);
      if targets[n] in e.players {
        StruckOthers(e.players, targets[n], attacker, dmg[targets[n]], SpawnPoint(draw(n)));
      }
    }
  }

  /** Each distinct registered target other than the attacker receives its
      whole damage in one step: its `hit`, and the attacker's
      `confirm_hit` about it, carry its health before the shot minus
      `dmg[t]`, clamped at zero. */
  lemma {:induction false} StrikeEachDamage(ps: map<PlayerId, Player>, targets: seq<PlayerId>, dmg: map<PlayerId, nat>, attacker: PlayerId, draw: nat -> nat, t: PlayerId)
    requires forall x :: x in targets ==> x in dmg
    requires Distinct(targets)
    requires t in targets && t in ps && t != attacker
    ensures var evs := StrikeEach(ps, targets, dmg, attacker, draw).events;
      var h := MaxInt(0, ps[t].health - dmg[t]);
      Hit(t, h, attacker) in evs && ConfirmHit(attacker, t, h) in evs
  {
    var n := |targets| - 1;
    var init := targets[..n];
    var e := StrikeEach(ps, init, dmg, attacker, draw);
    if targets[n] == t {
      assert t !in init;
      StrikeEachFrame(ps, init, dmg, attacker, draw, t);
      var e' := Struck(e.players, t, attacker, dmg[t], SpawnPoint(draw(n)));
      var h := MaxInt(0, ps[t].health - dmg[t]);
      StruckEvents(e.players, t, attacker, dmg[t], SpawnPoint(draw(n)), t);
      assert (e.events + e'.events)[|e.events|] == Hit(t, h, attacker);
      assert (e.events + e'.events)[|e.events| + 1] == ConfirmHit(attacker, t, h);
    } else {
      assert t in init;
      assert Distinct(init);
      StrikeEachDamage(ps, init, dmg, attacker, draw, t);
      if targets[n] in e.players {
        var e' := Struck(e.players, targets[n], attacker, dmg[targets[n]], SpawnPoint(draw(n)));
        var h := MaxInt(0, ps[t].health - dmg[t]);
        var k :| 0 <= k < |e.events| && e.events[k] == Hit(t, h, attacker);
        assert (e.events + e'.events)[k] == Hit(t, h, attacker);
        var k' :| 0 <= k' < |e.events| && e.events[k'] == ConfirmHit(attacker, t, h);
        assert (e.events + e'.events)[k'] == ConfirmHit(attacker, t, h);
      }
    }
  }

  /** A distinct registered target other than the attacker, at position
      `i` of `targets`, ends as one hit with its whole damage leaves it:
      when the damage kills it, at full health on the spawn point of draw
      `i` with one more death; otherwise with its health less `dmg[t]`,
      clamped at zero, and nothing else changed. */
  lemma {:induction false} StrikeEachTarget(ps: map<PlayerId, Player>, targets: seq<PlayerId>, dmg: map<PlayerId, nat>, attacker: PlayerId, draw: nat -> nat, t: PlayerId, i: nat)
    requires forall x :: x in targets ==> x in dmg
    requires Distinct(targets)
    requires i < |targets| && targets[i] == t && t in ps && t != attacker
    ensures var p := ps[t];
      var q := StrikeEach(ps, targets, dmg, attacker, draw).players[t];
      && (Kills(p.health, dmg[t]) ==> q == p.(health := MaxHealth, position := SpawnPoint(draw(i)), deaths := p.deaths + 1))
      && (!Kills(p.health, dmg[t]) ==> q == p.(health := MaxInt(0, p.health - dmg[t])))
  {
    var n := |targets| - 1;
    var init := targets[..n];
    assert Distinct(init);
    var e := StrikeEach(ps, init, dmg, attacker, draw);
    if i == n {
      assert t !in init;
      StrikeEachFrame(ps, init, dmg, attacker, draw, t);
    } else {
      assert init[i] == t && targets[n] != t;
      StrikeEachTarget(ps, init, dmg, attacker, draw, t, i);
      if targets[n] in e.players {
        StruckOthers(e.players, targets[n], attacker, dmg[targets[n]], SpawnPoint(draw(n)));
      }
    }
  }

  /** The number of registered targets that `dmg` kills, each judged on its
      health before the shot. */
  function KilledBy(ps: map<PlayerId, Player>, targets: seq<PlayerId>, dmg: map<PlayerId, nat>): (k: nat)
    requires forall t :: t in targets ==> t in dmg
    ensures k <= |targets|
  {
    if targets == [] then 0
    else
      var t := targets[|targets| - 1];
      KilledBy(ps, targets[..|targets| - 1], dmg) + (if t in ps && Kills(ps[t].health, dmg[t]) then 1 else 0)
  }

  /** An attacker that is not among the distinct targets gains exactly one
      kill per target the damage kills, and nothing else about it changes. */
  lemma {:induction false} StrikeEachAttacker(ps: map<PlayerId, Player>, targets: seq<PlayerId>, dmg: map<PlayerId, nat>, attacker: PlayerId, draw: nat -> nat)
    requires forall t :: t in targets ==> t in dmg
    requires Distinct(targets)
    requires attacker in ps && attacker !in targets
    ensures StrikeEach(ps, targets, dmg, attacker, draw).players[attacker]
         == ps[attacker].(kills := ps[attacker].kills + KilledBy(ps, targets, dmg))
  {
    if targets != [] {
      var n := |targets| - 1;
      var init := targets[..n];
      assert Distinct(init);
      StrikeEachAttacker(ps, init, dmg, attacker, draw);
      var e := StrikeEach(ps, init, dmg, attacker, draw);
      var t := targets[n];
      if t in e.players {
        assert t !in init;
        StrikeEachHealth(ps, init, dmg, attacker, draw, t);
        StruckOthers(e.players, t, attacker, dmg[t], SpawnPoint(draw(n)));
      }
    }
  }

  lemma {:induction false} StrikeEachKeepsLoadout(ps: map<PlayerId, Player>, targets: seq<PlayerId>, dmg: map<PlayerId, nat>, attacker: PlayerId, draw: nat -> nat)
    requires forall t :: t in targets ==> t in dmg
    ensures var ps' := StrikeEach(ps, targets, dmg, attacker, draw).players;
      forall u :: u in ps ==> SameLoadout(ps[u], ps'[u])
  {
    if targets != [] {
      var n := |targets| - 1;
      StrikeEachKeepsLoadout(ps, targets[..n], dmg, attacker, draw);
      var e := StrikeEach(ps, targets[..n], dmg, attacker, draw);
      if targets[n] in e.players {
        StruckKeepsLoadout(e.players, targets[n], attacker, dmg[targets[n]], SpawnPoint(draw(n)));
      }
    }
  }

  /** `rail`: every player the shot pierces takes the full damage. */
  function PierceDamage(hits: seq<RayHit>, damage: nat): (m: map<PlayerId, nat>)
    ensures forall t :: t in Targets(hits) ==> t in m && m[t] == damage
  {
    map t | t in Targets(hits) :: damage
  }

  /** A rocket leaves the launcher: stored (a known id keeps its place) and
      announced with `projectile_spawn`. */
  function Launch(w: World, owner: PlayerId, projId: ProjectileId, origin: Vec, velocity: Vec, ttlAt: int): Outcome {
    var pr := Projectile(projId, owner, origin, velocity, ttlAt);
    var projOrder := if projId in w.projectiles then w.projOrder else w.projOrder + [projId];
    Outcome(w.(projectiles := w.projectiles[projId := pr], projOrder := projOrder), [Spawned(projId, owner, origin)])
  }

  /** The weapon acts, once the shot is admitted and aimed. */
  function Fire(w: World, shooterId: PlayerId, weapon: Weapon, origin: Vec, dir: Vec, now: int,
                sqrt: real -> real, jitter: nat -> (real, real), projId: ProjectileId, draw: nat -> nat): (o: Outcome)
    ensures o.world.players.Keys == w.players.Keys && o.world.order == w.order
  {
    match weapon
    case Launcher(_, speed, ttlMs, _, _) =>
      Launch(w, shooterId, projId, origin, Scale(dir, speed), now + ttlMs)
    case Hitscan(_, pellets, spread, damage, range, pierce) =>
      if pierce then
        var hits := AllHitsIn(w.players, w.order, origin, dir, range, shooterId);
        var e := StrikeEach(w.players, Targets(hits), PierceDamage(hits, damage), shooterId, draw);
        Outcome(w.(players := e.players), e.events)
      else
        var hits := PelletHits(w.players, w.order, origin, dir, spread, range, shooterId, jitter, sqrt, pellets);
        var t := TallyOf(hits, damage);
        TallyTargets(hits, damage);
        var e := StrikeEach(w.players, t.targets, t.damage, shooterId, draw);
        Outcome(w.(players := e.players), e.events)
  }

  /** `shooter.lastShootAtByWeapon[weaponKey] = now`. */
  function Stamp(w: World, shooterId: PlayerId, key: string, now: int): World
    requires shooterId in w.players
  {
    var s := w.players[shooterId];
    w.(players := w.players[shooterId := s.(lastShootAt := s.lastShootAt[key := now])])
  }

  /** `shoot`. The timestamp is recorded as soon as the shot passes the
      gates, before the message is checked for an origin and a direction. */
  function Shoot(w: World, shooterId: PlayerId, msg: ShootMsg, now: int,
                 sqrt: real -> real, jitter: nat -> (real, real), projId: ProjectileId, draw: nat -> nat): (o: Outcome)
  {
    if shooterId !in w.players then Outcome(w, [])
    else
      var s := w.players[shooterId];
      var key := WeaponKey(s, msg);
      if !Admitted(s, key, now) then Outcome(w, [])
      else
        var w1 := Stamp(w, shooterId, key, now);
        if msg.origin.None? || msg.direction.None? then Outcome(w1, [])
        else
          var origin := AimOrigin(msg.origin.value, s.position);
          var dir := Normalize(AimDirection(msg.direction.value), sqrt);
          Fire(w1, shooterId, Catalog[key], origin, dir, now, sqrt, jitter, projId, draw)
  }

  /** A shot from an unknown socket, with an unknown or unowned weapon, or
      within the weapon's cooldown changes nothing and emits nothing. */
  lemma ShootIgnored(w: World, shooterId: PlayerId, msg: ShootMsg, now: int,
                     sqrt: real -> real, jitter: nat -> (real, real), projId: ProjectileId, draw: nat -> nat)
    requires shooterId in w.players ==>
      var s := w.players[shooterId];
      var key := WeaponKey(s, msg);
      key !in Catalog || !Owns(s.inventory, key) || now - LastShotAt(s, key) < Catalog[key].cooldownMs
    ensures Shoot(w, shooterId, msg, now, sqrt, jitter, projId, draw) == Outcome(w, [])
  {
  }

  /** An admitted shot records `now` for its weapon, which is at least one
      cooldown after the previous shot of that weapon; the timestamp is
      kept even when the message has no origin or direction, and then
      nothing else happens. */
  lemma ShootStamps(w: World, shooterId: PlayerId, msg: ShootMsg, now: int,
                    sqrt: real -> real, jitter: nat -> (real, real), projId: ProjectileId, draw: nat -> nat)
    requires shooterId in w.players
    requires Admitted(w.players[shooterId], WeaponKey(w.players[shooterId], msg), now)
    ensures var s := w.players[shooterId];
      var key := WeaponKey(s, msg);
      var o := Shoot(w, shooterId, msg, now, sqrt, jitter, projId, draw);
      && now >= LastShotAt(s, key) + Catalog[key].cooldownMs
      && shooterId in o.world.players
      && o.world.players[shooterId].lastShootAt == s.lastShootAt[key := now]
      && LastShotAt(o.world.players[shooterId], key) == now
      && (msg.origin.None? || msg.direction.None? ==> o == Outcome(Stamp(w, shooterId, key, now), []))
  {
    var s := w.players[shooterId];
    var key := WeaponKey(s, msg);
    var w1 := Stamp(w, shooterId, key, now);
    if msg.origin.Some? && msg.direction.Some? {
      var origin := AimOrigin(msg.origin.value, s.position);
      var dir := Normalize(AimDirection(msg.direction.value), sqrt);
      match Catalog[key]
      case Launcher(_, _, _, _, _) =>
      case Hitscan(_, pellets, spread, damage, range, pierce) =>
        if pierce {
          var hits := AllHitsIn(w1.players, w1.order, origin, dir, range, shooterId);
          StrikeEachKeepsLoadout(w1.players, Targets(hits), PierceDamage(hits, damage), shooterId, draw);
        } else {
          var hits := PelletHits(w1.players, w1.order, origin, dir, spread, range, shooterId, jitter, sqrt, pellets);
          var t := TallyOf(hits, damage);
          TallyTargets(hits, damage);
          StrikeEachKeepsLoadout(w1.players, t.targets, t.damage, shooterId, draw);
        }
    }
  }

  /** Recording a shot time keeps the world valid and the roster as it is. */
  lemma StampKeepsValid(w: World, shooterId: PlayerId, key: string, now: int)
    requires WorldValid(w) && shooterId in w.players
    ensures var w1 := Stamp(w, shooterId, key, now);
      WorldValid(w1) && w1.players.Keys == w.players.Keys && w1.order == w.order
  {
    var w1 := Stamp(w, shooterId, key, now);
    assert PlayersValid(w1.players);
  }

  /** Launching a rocket keeps the world valid and the roster as it is. */
  lemma LaunchKeepsValid(w: World, owner: PlayerId, projId: ProjectileId, origin: Vec, velocity: Vec, ttlAt: int)
    requires WorldValid(w)
    ensures var w1 := Launch(w, owner, projId, origin, velocity, ttlAt).world;
      WorldValid(w1) && w1.players == w.players
  {
    if projId !in w.projectiles {
      AppendDistinct(w.projOrder, projId);
    }
  }

  /** Whatever the weapon, firing keeps the world valid and the roster as
      it is. */
  lemma FireKeepsValid(w: World, shooterId: PlayerId, weapon: Weapon, origin: Vec, dir: Vec, now: int,
                       sqrt: real -> real, jitter: nat -> (real, real), projId: ProjectileId, draw: nat -> nat)
    requires WorldValid(w)
    ensures var w1 := Fire(w, shooterId, weapon, origin, dir, now, sqrt, jitter, projId, draw).world;
      WorldValid(w1) && w1.players.Keys == w.players.Keys
  {
    match weapon
    case Launcher(_, speed, ttlMs, _, _) =>
      LaunchKeepsValid(w, shooterId, projId, origin, Scale(dir, speed), now + ttlMs);
    case Hitscan(_, pellets, spread, damage, range, pierce) =>
      if pierce {
        var hits := AllHitsIn(w.players, w.order, origin, dir, range, shooterId);
        StrikeEachKeepsValid(w.players, Targets(hits), PierceDamage(hits, damage), shooterId, draw);
      } else {
        var hits := PelletHits(w.players, w.order, origin, dir, spread, range, shooterId, jitter, sqrt, pellets);
        var t := TallyOf(hits, damage);
        TallyTargets(hits, damage);
        StrikeEachKeepsValid(w.players, t.targets, t.damage, shooterId, draw);
      }
  }

  /** Every shot keeps the world valid and the roster as it is. */
  lemma ShootKeepsValid(w: World, shooterId: PlayerId, msg: ShootMsg, now: int,
                        sqrt: real -> real, jitter: nat -> (real, real), projId: ProjectileId, draw: nat -> nat)
    requires WorldValid(w)
    ensures var o := Shoot(w, shooterId, msg, now, sqrt, jitter, projId, draw);
      WorldValid(o.world) && o.world.players.Keys == w.players.Keys
  {
    if shooterId in w.players {
      var s := w.players[shooterId];
      var key := WeaponKey(s, msg);
      if Admitted(s, key, now) {
        StampKeepsValid(w, shooterId, key, now);
        if msg.origin.Some? && msg.direction.Some? {
          ShootFires(w, shooterId, msg, now, sqrt, jitter, projId, draw);
          FireKeepsValid(Stamp(w, shooterId, key, now), shooterId, Catalog[key], AimOrigin(msg.origin.value, s.position),
                         Normalize(AimDirection(msg.direction.value), sqrt), now, sqrt, jitter, projId, draw);
        }
      }
    }
  }

  /** An admitted, aimed shot is the weapon acting on the stamped world. */
  lemma ShootFires(w: World, shooterId: PlayerId, msg: ShootMsg, now: int,
                   sqrt: real -> real, jitter: nat -> (real, real), projId: ProjectileId, draw: nat -> nat)
    requires shooterId in w.players
    requires Admitted(w.players[shooterId], WeaponKey(w.players[shooterId], msg), now)
    requires msg.origin.Some? && msg.direction.Some?
    ensures var s := w.players[shooterId];
      var key := WeaponKey(s, msg);
      Shoot(w, shooterId, msg, now, sqrt, jitter, projId, draw)
      == Fire(Stamp(w, shooterId, key, now), shooterId, Catalog[key], AimOrigin(msg.origin.value, s.position),
              Normalize(AimDirection(msg.direction.value), sqrt), now, sqrt, jitter, projId, draw)
  {
  }

  /** A piercing hitscan weapon: each player eligible along the ray gets
      one `hit` and its shooter one `confirm_hit`, with the full damage, and
      a `died` when that damage kills it. */
  lemma FirePierce(w: World, shooterId: PlayerId, weapon: Weapon, origin: Vec, dir: Vec, now: int,
                   sqrt: real -> real, jitter: nat -> (real, real), projId: ProjectileId, draw: nat -> nat, u: PlayerId)
    requires Distinct(w.order) && AllRegistered(w.players, w.order)
    requires weapon.Hitscan? && weapon.pierce
    ensures var o := Fire(w, shooterId, weapon, origin, dir, now, sqrt, jitter, projId, draw);
      var pierced := u in w.order && Eligible(w.players, u, origin, dir, weapon.range, shooterId);
      && HitsTo(o.events, u) == (if pierced then 1 else 0)
      && ConfirmsOf(o.events, u) == (if pierced then 1 else 0)
      && DiedTo(o.events, u) == (if pierced && Kills(w.players[u].health, weapon.damage) then 1 else 0)
      && (pierced && u != shooterId ==> Hit(u, MaxInt(0, w.players[u].health - weapon.damage), shooterId) in o.events)
      && o.world.projectiles == w.projectiles
  {
    var hits := AllHitsIn(w.players, w.order, origin, dir, weapon.range, shooterId);
    var dmg := PierceDamage(hits, weapon.damage);
    var e := StrikeEach(w.players, Targets(hits), dmg, shooterId, draw);
    assert Fire(w, shooterId, weapon, origin, dir, now, sqrt, jitter, projId, draw) == Outcome(w.(players := e.players), e.events);
    assert Distinct(Targets(hits)) && (u in Targets(hits) <==> u in w.order && Eligible(w.players, u, origin, dir, weapon.range, shooterId)) by {
      AllHitsInCorrect(w.players, w.order, origin, dir, weapon.range, shooterId);
    }
    StrikeEachEvents(w.players, Targets(hits), dmg, shooterId, draw, u);
    if u in Targets(hits) {
      assert dmg[u] == weapon.damage;
      if u != shooterId {
        StrikeEachDamage(w.players, Targets(hits), dmg, shooterId, draw, u);
      }
    }
  }

  /** A pellet hitscan weapon: each player some pellet first hit gets one
      `hit` (its shooter one `confirm_hit`) carrying its health less the
      damage times the number of pellets that hit it, and a `died` when
      that total kills it. */
  lemma FirePellets(w: World, shooterId: PlayerId, weapon: Weapon, origin: Vec, dir: Vec, now: int,
                    sqrt: real -> real, jitter: nat -> (real, real), projId: ProjectileId, draw: nat -> nat, u: PlayerId)
    requires weapon.Hitscan? && !weapon.pierce
    ensures var o := Fire(w, shooterId, weapon, origin, dir, now, sqrt, jitter, projId, draw);
      var hits := PelletHits(w.players, w.order, origin, dir, weapon.spread, weapon.range, shooterId, jitter, sqrt, weapon.pellets);
      var struck := PelletsOn(hits, u) > 0 && u in w.players;
      && HitsTo(o.events, u) == (if struck then 1 else 0)
      && ConfirmsOf(o.events, u) == (if struck then 1 else 0)
      && DiedTo(o.events, u) == (if struck && Kills(w.players[u].health, weapon.damage * PelletsOn(hits, u)) then 1 else 0)
      && (struck && u != shooterId ==> Hit(u, MaxInt(0, w.players[u].health - weapon.damage * PelletsOn(hits, u)), shooterId) in o.events)
      && o.world.projectiles == w.projectiles
  {
    var hits := PelletHits(w.players, w.order, origin, dir, weapon.spread, weapon.range, shooterId, jitter, sqrt, weapon.pellets);
    var t := TallyOf(hits, weapon.damage);
    TallyTargets(hits, weapon.damage);
    TallyDamage(hits, weapon.damage, u);
    var e := StrikeEach(w.players, t.targets, t.damage, shooterId, draw);
    assert Fire(w, shooterId, weapon, origin, dir, now, sqrt, jitter, projId, draw) == Outcome(w.(players := e.players), e.events);
    StrikeEachEvents(w.players, t.targets, t.damage, shooterId, draw, u);
    if PelletsOn(hits, u) > 0 {
      var total := weapon.damage * PelletsOn(hits, u);
      assert t.damage[u] == total;
      if u in w.players && u != shooterId {
        StrikeEachDamage(w.players, t.targets, t.damage, shooterId, draw, u);
        assert Hit(u, MaxInt(0, w.players[u].health - total), shooterId) in e.events;
      }
    }
  }

  /** An aimed rocket shot stores a rocket owned by the shooter at the
      origin, flying at 45 units per second along the normalised aim and
      expiring 3000 ms later, and announces it; no player changes beyond
      the shooter's timestamp. */
  lemma ShootRocket(w: World, shooterId: PlayerId, msg: ShootMsg, now: int,
                    sqrt: real -> real, jitter: nat -> (real, real), projId: ProjectileId, draw: nat -> nat)
    requires shooterId in w.players
    requires WeaponKey(w.players[shooterId], msg) == "rocket"
    requires Admitted(w.players[shooterId], "rocket", now)
    requires msg.origin.Some? && msg.direction.Some?
    ensures var o := Shoot(w, shooterId, msg, now, sqrt, jitter, projId, draw);
      var origin := AimOrigin(msg.origin.value, w.players[shooterId].position);
      && o.world.players == Stamp(w, shooterId, "rocket", now).players
      && projId in o.world.projectiles
      && o.world.projectiles[projId]
         == Projectile(projId, shooterId, origin, Scale(Normalize(AimDirection(msg.direction.value), sqrt), 45.0), now + 3000)
      && (forall r :: r in w.projectiles && r != projId ==> o.world.projectiles[r] == w.projectiles[r])
      && o.events == [Spawned(projId, shooterId, origin)]
  {
    ShootFires(w, shooterId, msg, now, sqrt, jitter, projId, draw);
    CatalogEntries();
  }

  /** An aimed `rail` shot: each player the ray pierces (every eligible
      player, whatever its distance along the ray) receives one `hit` and
      its shooter one `confirm_hit`, with the full 90 damage, and a `died`
      when that kills it; nobody else is told anything. */
  lemma ShootRail(w: World, shooterId: PlayerId, msg: ShootMsg, now: int,
                  sqrt: real -> real, jitter: nat -> (real, real), projId: ProjectileId, draw: nat -> nat, u: PlayerId)
    requires WorldValid(w)
    requires shooterId in w.players
    requires WeaponKey(w.players[shooterId], msg) == "rail"
    requires Admitted(w.players[shooterId], "rail", now)
    requires msg.origin.Some? && msg.direction.Some?
    ensures var o := Shoot(w, shooterId, msg, now, sqrt, jitter, projId, draw);
      var origin := AimOrigin(msg.origin.value, w.players[shooterId].position);
      var dir := Normalize(AimDirection(msg.direction.value), sqrt);
      var pierced := Eligible(w.players, u, origin, dir, 300.0, shooterId);
      && HitsTo(o.events, u) == (if pierced then 1 else 0)
      && ConfirmsOf(o.events, u) == (if pierced then 1 else 0)
      && DiedTo(o.events, u) == (if pierced && Kills(w.players[u].health, 90) then 1 else 0)
      && (pierced && u != shooterId ==> Hit(u, MaxInt(0, w.players[u].health - 90), shooterId) in o.events)
      && o.world.projectiles == w.projectiles
  {
    var s := w.players[shooterId];
    var w1 := Stamp(w, shooterId, "rail", now);
    var origin := AimOrigin(msg.origin.value, s.position);
    var dir := Normalize(AimDirection(msg.direction.value), sqrt);
    assert Shoot(w, shooterId, msg, now, sqrt, jitter, projId, draw) == Fire(w1, shooterId, Rail, origin, dir, now, sqrt, jitter, projId, draw) by {
      ShootFires(w, shooterId, msg, now, sqrt, jitter, projId, draw);
      CatalogEntries();
    }
    assert Distinct(w1.order) && AllRegistered(w1.players, w1.order) by {
      StampKeepsValid(w, shooterId, "rail", now);
    }
    FirePierce(w1, shooterId, Rail, origin, dir, now, sqrt, jitter, projId, draw, u);
    if u in w.players {
      assert w1.players[u].position == w.players[u].position;
      assert u in w.order;
      assert w1.players[u].health == w.players[u].health;
      assert u != shooterId ==> w1.players[u] == w.players[u];
    } else {
      assert !Eligible(w1.players, u, origin, dir, 300.0, shooterId);
    }
  }

  /** An aimed `rifle` or `shotgun` shot: every player some pellet first
      hit receives one `hit` (its shooter one `confirm_hit`), carrying its
      health less the weapon's damage times the number of pellets that hit
      it, and a `died` when that kills it; nobody else is told anything. */
  lemma ShootPellets(w: World, shooterId: PlayerId, msg: ShootMsg, now: int,
                     sqrt: real -> real, jitter: nat -> (real, real), projId: ProjectileId, draw: nat -> nat, u: PlayerId)
    requires shooterId in w.players
    requires WeaponKey(w.players[shooterId], msg) in {"rifle", "shotgun"}
    requires Admitted(w.players[shooterId], WeaponKey(w.players[shooterId], msg), now)
    requires msg.origin.Some? && msg.direction.Some?
    ensures var key := WeaponKey(w.players[shooterId], msg);
      var wp := Catalog[key];
      var o := Shoot(w, shooterId, msg, now, sqrt, jitter, projId, draw);
      var w1 := Stamp(w, shooterId, key, now);
      var hits := PelletHits(w1.players, w1.order, AimOrigin(msg.origin.value, w.players[shooterId].position),
                             Normalize(AimDirection(msg.direction.value), sqrt), wp.spread, wp.range, shooterId, jitter, sqrt, wp.pellets);
      var struck := PelletsOn(hits, u) > 0 && u in w.players;
      && HitsTo(o.events, u) == (if struck then 1 else 0)
      && ConfirmsOf(o.events, u) == (if struck then 1 else 0)
      && DiedTo(o.events, u) == (if struck && Kills(w.players[u].health, wp.damage * PelletsOn(hits, u)) then 1 else 0)
      && (struck && u != shooterId ==> Hit(u, MaxInt(0, w.players[u].health - wp.damage * PelletsOn(hits, u)), shooterId) in o.events)
      && o.world.projectiles == w.projectiles
  {
    var s := w.players[shooterId];
    var key := WeaponKey(s, msg);
    var w1 := Stamp(w, shooterId, key, now);
    ShootFires(w, shooterId, msg, now, sqrt, jitter, projId, draw);
    CatalogShape(key);
    FirePellets(w1, shooterId, Catalog[key], AimOrigin(msg.origin.value, s.position),
                Normalize(AimDirection(msg.direction.value), sqrt), now, sqrt, jitter, projId, draw, u);
    assert u in w.players ==> w1.players[u].health == w.players[u].health;
    assert u in w.players && u != shooterId ==> w1.players[u] == w.players[u];
  }
}
