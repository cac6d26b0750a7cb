/** The world tick of server/index.js (lines 293-350): every rocket in
    flight moves one step, explodes on the floor, at the end of its life or
    next to a player other than its owner, and hurts everybody within its
    splash radius; then the world is broadcast (lines 131-146). */
module Projectiles {
  import opened Seqs
  import opened Geometry
  import opened Weapons
  import opened Combat
  import opened Raycast

  /** `WORLD_BROADCAST_INTERVAL_MS / 1000`: `Math.floor(1000 / 20)` is 50 ms. */
  const Dt: real := 0.05

  /** `pr.position = add(pr.position, scale(pr.velocity, dt))`. */
  function Advance(pr: Projectile): (q: Projectile)
    ensures q == pr.(position := q.position)
    ensures Sub(q.position, pr.position) == Scale(pr.velocity, Dt)
  {
    pr.(position := Add(pr.position, Scale(pr.velocity, Dt)))
  }

  /** Some player other than the owner is within distance 1 of the rocket
      (squared distance at most 1). */
  predicate NearNonOwner(ps: map<PlayerId, Player>, order: seq<PlayerId>, pr: Projectile) {
    exists k :: 0 <= k < |order| && order[k] != pr.owner && order[k] in ps
      && DistSq(ps[order[k]].position, pr.position) <= 1.0
  }

  /** `shouldExplode` for a rocket already moved this tick. */
  predicate Explodes(ps: map<PlayerId, Player>, order: seq<PlayerId>, pr: Projectile, now: int) {
    pr.position.y <= 0.5 || now >= pr.ttlAt || NearNonOwner(ps, order, pr)
  }

  // ---------------------------------------------------------------------
  // Splash damage

  /** `d <= splashRadius` is decided on squares: `d * d <= 36`. */
  const SplashRadiusSq: real := Rocket.splashRadius * Rocket.splashRadius

  /** The distance up to which `Math.round((1 - d / 6) * 85)` is at least
      `k`: `round` is `floor(x + 0.5)`, so the bound is `6 * (85.5 - k) / 85`. */
  function Reach(k: int): real {
    (513.0 - 6.0 * k as real) / 85.0
  }

  /** The square of `Reach(k)`, the bound on the squared distance. */
  function ReachSq(k: int): real {
    Reach(k) * Reach(k)
  }

  /** The largest `r <= k` whose reach covers the squared distance `d2`,
      searching downwards (0 when none does). */
  function SplashFrom(d2: real, k: nat): (r: nat)
    requires k <= 85
    ensures r <= k
    ensures r == 0 || d2 <= ReachSq(r)
    ensures r < k ==> d2 > ReachSq(r + 1)
    decreases k
  {
    if k == 0 then 0
    else if d2 <= ReachSq(k) then k
    else SplashFrom(d2, k - 1)
  }

  /** The rocket's splash damage at squared distance `d2`, computed without
      a square root; `SplashDamageRounds` shows it is the rounded linear
      falloff of the rocket's `splashMax` of 85 over its `splashRadius` of
      6. */
  function SplashDamage(d2: real): (dmg: nat)
    ensures dmg <= Rocket.splashMax
  {
    SplashFrom(d2, 85)
  }

  lemma MulPos(x: real, y: real)
    requires x > 0.0 && y > 0.0
    ensures x * y > 0.0
  {
  }

  lemma SquareOrder(a: real, b: real)
    requires 0.0 <= a && 0.0 <= b
    ensures a <= b <==> a * a <= b * b
  {
    if a <= b {
      assert a * a <= a * b;
      assert a * b <= b * b;
    } else {
      MulPos(a - b, a + b);
      assert (a - b) * (a + b) == a * a - b * b;
    }
  }

  /** `d` is within reach `k` exactly when `d * d` is within its square. */
  lemma WithinReach(d: real, k: int)
    requires 0.0 <= d && k <= 85
    ensures d <= Reach(k) <==> d * d <= ReachSq(k)
  {
    SquareOrder(d, Reach(k));
  }

  /** For a distance `d` within the splash radius, with `d * d == d2`, the
      damage is `Math.round((1 - d / 6) * 85)` (rounding half up). */
  lemma SplashDamageRounds(d2: real, d: real)
    requires 0.0 <= d <= 6.0 && d * d == d2
    ensures SplashDamage(d2) == ((1.0 - d / 6.0) * 85.0 + 0.5).Floor
  {
    var k := SplashDamage(d2);
    var x := (1.0 - d / 6.0) * 85.0 + 0.5;
    if k > 0 {
      WithinReach(d, k);
      assert d <= (513.0 - 6.0 * k as real) / 85.0;
    }
    assert k as real <= x;
    if k < 85 {
      WithinReach(d, k + 1);
      assert d > (513.0 - 6.0 * (k + 1) as real) / 85.0;
    }
    assert x < k as real + 1.0;
  }

  lemma {:induction false} SplashFromAtLeast(d2: real, n: nat, k: nat)
    requires k <= n <= 85
    requires d2 <= ReachSq(k)
    ensures SplashFrom(d2, n) >= k
    decreases n
  {
    if n > k && !(d2 <= ReachSq(n)) {
      SplashFromAtLeast(d2, n - 1, k);
    }
  }

  /** Nearer players never take less splash damage. */
  lemma SplashMonotone(d2: real, e2: real)
    requires d2 <= e2
    ensures SplashDamage(d2) >= SplashDamage(e2)
  {
    var k := SplashDamage(e2);
    if k > 0 {
      SplashFromAtLeast(d2, 85, k);
    }
  }

  /** The full 85 at the centre, 43 at distance 3 (42.5 rounds up), and
      nothing at the edge of the radius. */
  lemma SplashSamples()
    ensures SplashDamage(0.0) == 85
    ensures SplashDamage(9.0) == 43
    ensures SplashDamage(36.0) == 0
  {
    SplashDamageRounds(0.0, 0.0);
    SplashDamageRounds(9.0, 3.0);
    SplashDamageRounds(36.0, 6.0);
  }

  /** The splash loop over `players.values()`: each player within the
      radius at its turn takes `SplashDamage` when that is positive, through
      the damage protocol credited to the rocket's owner. */
  function Splash(ps: map<PlayerId, Player>, order: seq<PlayerId>, center: Vec, owner: PlayerId, draw: nat -> nat): (e: Effect)
    requires AllRegistered(ps, order)
    ensures e.players.Keys == ps.Keys
  {
    if order == [] then Effect(ps, [])
    else
      var n := |order| - 1;
      var e := Splash(ps, order[..n], center, owner, draw);
      var id := order[n];
      var d2 := DistSq(e.players[id].position, center);
      if d2 <= SplashRadiusSq && SplashDamage(d2) > 0 then
        var e' := Struck(e.players, id, owner, SplashDamage(d2), SpawnPoint(draw(n)));
        Effect(e'.players, e.events + e'.events)
      else e
  }

  /** One more player of the loop: the fold grows by one turn. */
  lemma SplashExtend(ps: map<PlayerId, Player>, ids: seq<PlayerId>, i: nat, center: Vec, owner: PlayerId, draw: nat -> nat)
    requires AllRegistered(ps, ids) && i < |ids|
    ensures AllRegistered(ps, ids[..i]) && AllRegistered(ps, ids[..i + 1])
    ensures var e := Splash(ps, ids[..i], center, owner, draw);
      ids[i] in e.players &&
      var d2 := DistSq(e.players[ids[i]].position, center);
      Splash(ps, ids[..i + 1], center, owner, draw)
        == if d2 <= SplashRadiusSq && SplashDamage(d2) > 0 then
             var e' := Struck(e.players, ids[i], owner, SplashDamage(d2), SpawnPoint(draw(i)));
             Effect(e'.players, e.events + e'.events)
           else e
  {
    assert ids[..i + 1][..i] == ids[..i];
  }

  /** A player the loop has not reached yet still has its position and
      health. */
  lemma {:induction false} SplashFrame(ps: map<PlayerId, Player>, order: seq<PlayerId>, center: Vec, owner: PlayerId, draw: nat -> nat, u: PlayerId)
    requires AllRegistered(ps, order)
    requires u in ps && u !in order
    ensures var q := Splash(ps, order, center, owner, draw).players[u];
      q.position == ps[u].position && q.health == ps[u].health
  {
    if order != [] {
      var n := |order| - 1;
      SplashFrame(ps, order[..n], center, owner, draw, u);
      var e := Splash(ps, order[..n], center, owner, draw);
      var id := order[n];
      var d2 := DistSq(e.players[id].position, center);
      if d2 <= SplashRadiusSq && SplashDamage(d2) > 0 {
        StruckOthers(e.players, id, owner, SplashDamage(d2), SpawnPoint(draw(n)));
      }
    }
  }

  /** Within the radius, the splash damage of a player. */
  function SplashOn(p: Player, center: Vec): nat {
    var d2 := DistSq(p.position, center);
    if d2 <= SplashRadiusSq then SplashDamage(d2) else 0
  }

  /** The splash of player `id` at its turn is decided on its position
      before the explosion. */
  lemma SplashTurn(ps: map<PlayerId, Player>, order: seq<PlayerId>, center: Vec, owner: PlayerId, draw: nat -> nat)
    requires AllRegistered(ps, order) && Distinct(order) && order != []
    ensures var n := |order| - 1;
      var e := Splash(ps, order[..n], center, owner, draw);
      var id := order[n];
      && e.players[id].health == ps[id].health
      && SplashOn(ps[id], center) == (var d2 := DistSq(e.players[id].position, center); if d2 <= SplashRadiusSq then SplashDamage(d2) else 0)
  {
    var n := |order| - 1;
    assert order[n] !in order[..n];
    SplashFrame(ps, order[..n], center, owner, draw, order[n]);
  }

  /** Each player of a distinct iteration order is told of the splash once
      exactly when its damage (from its position before the explosion) is
      positive, the owner is told once per victim, a victim the splash
      kills is sent `died` once, and nothing explodes. */
  lemma {:induction false} SplashCounts(ps: map<PlayerId, Player>, order: seq<PlayerId>, center: Vec, owner: PlayerId, draw: nat -> nat, u: PlayerId)
    requires AllRegistered(ps, order) && Distinct(order)
    ensures var evs := Splash(ps, order, center, owner, draw).events;
      var struck := u in order && SplashOn(ps[u], center) > 0;
      && HitsTo(evs, u) == (if struck then 1 else 0)
      && ConfirmsOf(evs, u) == (if struck then 1 else 0)
      && DiedTo(evs, u) == (if struck && Kills(ps[u].health, SplashOn(ps[u], center)) then 1 else 0)
      && ExplosionsOf(evs, u) == 0
  {
    if order != [] {
      var n := |order| - 1;
      var init := order[..n];
      assert Distinct(init);
      assert forall x :: x in order <==> x in init || x == order[n];
      SplashCounts(ps, init, center, owner, draw, u);
      SplashTurn(ps, order, center, owner, draw);
      var e := Splash(ps, init, center, owner, draw);
      var id := order[n];
      var d2 := DistSq(e.players[id].position, center);
      if d2 <= SplashRadiusSq && SplashDamage(d2) > 0 {
        var e' := Struck(e.players, id, owner, SplashDamage(d2), SpawnPoint(draw(n)));
        StruckEvents(e.players, id, owner, SplashDamage(d2), SpawnPoint(draw(n)), u);
        CountsAppend(e.events, e'.events, u);
      }
    }
  }

  /** The `hit` of each victim, and the owner's `confirm_hit` about it,
      carry its health before the explosion less its splash damage, clamped
      at zero. */
  lemma {:induction false} SplashHit(ps: map<PlayerId, Player>, order: seq<PlayerId>, center: Vec, owner: PlayerId, draw: nat -> nat, u: PlayerId)
    requires AllRegistered(ps, order) && Distinct(order)
    requires u in order && SplashOn(ps[u], center) > 0
    ensures var evs := Splash(ps, order, center, owner, draw).events;
      var h := MaxInt(0, ps[u].health - SplashOn(ps[u], center));
      Hit(u, h, owner) in evs && ConfirmHit(owner, u, h) in evs
  {
    var n := |order| - 1;
    var init := order[..n];
    var h := MaxInt(0, ps[u].health - SplashOn(ps[u], center));
    var x := Hit(u, h, owner);
    var y := ConfirmHit(owner, u, h);
    SplashTurn(ps, order, center, owner, draw);
    var e := Splash(ps, init, center, owner, draw);
    var id := order[n];
    var d2 := DistSq(e.players[id].position, center);
    if u == id {
      var e' := Struck(e.players, id, owner, SplashDamage(d2), SpawnPoint(draw(n)));
      StruckEvents(e.players, id, owner, SplashDamage(d2), SpawnPoint(draw(n)), u);
      assert (e.events + e'.events)[|e.events|] == x;
      assert (e.events + e'.events)[|e.events| + 1] == y;
    } else {
      assert u in init && Distinct(init);
      SplashHit(ps, init, center, owner, draw, u);
      if d2 <= SplashRadiusSq && SplashDamage(d2) > 0 {
        var e' := Struck(e.players, id, owner, SplashDamage(d2), SpawnPoint(draw(n)));
        var k :| 0 <= k < |e.events| && e.events[k] == x;
        assert (e.events + e'.events)[k] == x;
        var k' :| 0 <= k' < |e.events| && e.events[k'] == y;
        assert (e.events + e'.events)[k'] == y;
      }
    }
  }

  /** A registered player the splash does not reach, or that the loop does
      not visit, keeps its whole record; the owner may only gain kills. */
  lemma {:induction false} SplashQuiet(ps: map<PlayerId, Player>, order: seq<PlayerId>, center: Vec, owner: PlayerId, draw: nat -> nat, u: PlayerId)
    requires AllRegistered(ps, order) && Distinct(order)
    requires u in ps && (u !in order || SplashOn(ps[u], center) == 0)
    ensures var q := Splash(ps, order, center, owner, draw).players[u];
      && q.(kills := ps[u].kills) == ps[u]
      && (u != owner ==> q == ps[u])
  {
    if order != [] {
      var n := |order| - 1;
      var init := order[..n];
      assert Distinct(init);
      assert u in init ==> u in order;
      SplashQuiet(ps, init, center, owner, draw, u);
      SplashTurn(ps, order, center, owner, draw);
      var e := Splash(ps, init, center, owner, draw);
      var id := order[n];
      var d2 := DistSq(e.players[id].position, center);
      if d2 <= SplashRadiusSq && SplashDamage(d2) > 0 {
        assert id != u;
        StruckOthers(e.players, id, owner, SplashDamage(d2), SpawnPoint(draw(n)));
      }
    }
  }

  /** A victim at position `i` of the loop, judged on its record before the
      explosion: when the splash kills it, it is at full health on the
      spawn point of draw `i` with one more death; otherwise its health is
      less the splash damage, clamped at zero. Nothing else about it
      changes, except the kills of an owner caught in its own blast. */
  lemma {:induction false} SplashVictim(ps: map<PlayerId, Player>, order: seq<PlayerId>, center: Vec, owner: PlayerId, draw: nat -> nat, u: PlayerId, i: nat)
    requires AllRegistered(ps, order) && Distinct(order)
    requires i < |order| && order[i] == u && SplashOn(ps[u], center) > 0
    ensures var p := ps[u];
      var dmg := SplashOn(p, center);
      var q := Splash(ps, order, center, owner, draw).players[u];
      && (Kills(p.health, dmg) ==> q.(kills := p.kills) == p.(health := MaxHealth, position := SpawnPoint(draw(i)), deaths := p.deaths + 1))
      && (!Kills(p.health, dmg) ==> q.(kills := p.kills) == p.(health := MaxInt(0, p.health - dmg)))
      && (u != owner ==> q.kills == p.kills)
  {
    var n := |order| - 1;
    if i == n {
      SplashVictimLast(ps, order, center, owner, draw);
    } else {
      var init := order[..n];
      assert Distinct(init);
      SplashTurn(ps, order, center, owner, draw);
      var e := Splash(ps, init, center, owner, draw);
      var id := order[n];
      assert init[i] == u && id != u;
      SplashVictim(ps, init, center, owner, draw, u, i);
      var d2 := DistSq(e.players[id].position, center);
      if d2 <= SplashRadiusSq && SplashDamage(d2) > 0 {
        StruckOthers(e.players, id, owner, SplashDamage(d2), SpawnPoint(draw(n)));
      }
    }
  }

  /** `SplashVictim` for the player the loop visits last. */
  lemma SplashVictimLast(ps: map<PlayerId, Player>, order: seq<PlayerId>, center: Vec, owner: PlayerId, draw: nat -> nat)
    requires AllRegistered(ps, order) && Distinct(order) && order != []
    requires SplashOn(ps[order[|order| - 1]], center) > 0
    ensures var n := |order| - 1;
      var p := ps[order[n]];
      var dmg := SplashOn(p, center);
      var q := Splash(ps, order, center, owner, draw).players[order[n]];
      && (Kills(p.health, dmg) ==> q.(kills := p.kills) == p.(health := MaxHealth, position := SpawnPoint(draw(n)), deaths := p.deaths + 1))
      && (!Kills(p.health, dmg) ==> q.(kills := p.kills) == p.(health := MaxInt(0, p.health - dmg)))
      && (order[n] != owner ==> q.kills == p.kills)
  {
    var n := |order| - 1;
    var init := order[..n];
    assert Distinct(init);
    assert order[n] !in init;
    SplashQuiet(ps, init, center, owner, draw, order[n]);
    SplashTurn(ps, order, center, owner, draw);
    var e := Splash(ps, init, center, owner, draw);
    var d2 := DistSq(e.players[order[n]].position, center);
    StruckRecord(e.players, order[n], owner, SplashDamage(d2), SpawnPoint(draw(n)));
  }

  /** The number of players of the loop the splash kills, each judged on
      its record before the explosion. */
  function SplashKills(ps: map<PlayerId, Player>, order: seq<PlayerId>, center: Vec): (k: nat)
    requires AllRegistered(ps, order)
    ensures k <= |order|
  {
    if order == [] then 0
    else
      var id := order[|order| - 1];
      SplashKills(ps, order[..|order| - 1], center) + (if Kills(ps[id].health, SplashOn(ps[id], center)) then 1 else 0)
  }

  /** A registered owner gains exactly one kill per player its rocket
      kills, itself included. */
  lemma {:induction false} SplashOwnerKills(ps: map<PlayerId, Player>, order: seq<PlayerId>, center: Vec, owner: PlayerId, draw: nat -> nat)
    requires AllRegistered(ps, order) && Distinct(order) && owner in ps
    ensures Splash(ps, order, center, owner, draw).players[owner].kills == ps[owner].kills + SplashKills(ps, order, center)
  {
    if order != [] {
      var n := |order| - 1;
      var init := order[..n];
      assert Distinct(init);
      SplashOwnerKills(ps, init, center, owner, draw);
      SplashTurn(ps, order, center, owner, draw);
      var e := Splash(ps, init, center, owner, draw);
      var id := order[n];
      var d2 := DistSq(e.players[id].position, center);
      if d2 <= SplashRadiusSq && SplashDamage(d2) > 0 {
        StruckOthers(e.players, id, owner, SplashDamage(d2), SpawnPoint(draw(n)));
      }
    }
  }

  lemma {:induction false} SplashKeepsValid(ps: map<PlayerId, Player>, order: seq<PlayerId>, center: Vec, owner: PlayerId, draw: nat -> nat)
    requires AllRegistered(ps, order) && PlayersValid(ps)
    ensures PlayersValid(Splash(ps, order, center, owner, draw).players)
  {
    if order != [] {
      var n := |order| - 1;
      SplashKeepsValid(ps, order[..n], center, owner, draw);
      var e := Splash(ps, order[..n], center, owner, draw);
      var id := order[n];
      var d2 := DistSq(e.players[id].position, center);
      if d2 <= SplashRadiusSq && SplashDamage(d2) > 0 {
        StruckKeepsPlayersValid(e.players, id, owner, SplashDamage(d2), SpawnPoint(draw(n)));
      }
    }
  }

  // ---------------------------------------------------------------------
  // One rocket, one tick

  /** One iteration of the projectile loop for rocket `id` (a no-op when it
      is gone, which cannot happen within a tick). */
  function StepProjectile(w: World, id: ProjectileId, now: int, draw: nat -> nat): (o: Outcome)
    requires AllRegistered(w.players, w.order)
    ensures o.world.players.Keys == w.players.Keys && o.world.order == w.order
  {
    if id !in w.projectiles then Outcome(w, [])
    else
      var pr := Advance(w.projectiles[id]);
      if Explodes(w.players, w.order, pr, now) then
        var e := Splash(w.players, w.order, pr.position, pr.owner, draw);
        var w' := w.(players := e.players, projectiles := w.projectiles - {id}, projOrder := Without(w.projOrder, id));
        Outcome(w', e.events + [Exploded(pr.id, pr.position)])
      else
        Outcome(w.(projectiles := w.projectiles[id := pr]), [])
  }

  /** A rocket either survives the step, moved by one velocity step and
      with nothing emitted, or is removed with exactly one
      `projectile_explode`; it survives only above the floor, before its
      expiry and away from every non-owner. Other rockets are untouched and
      the world stays well formed. */
  lemma StepProjectileFate(w: World, id: ProjectileId, now: int, draw: nat -> nat)
    requires WorldValid(w) && id in w.projectiles
    ensures var o := StepProjectile(w, id, now, draw);
      var pr := Advance(w.projectiles[id]);
      && WorldValid(o.world)
      && o.world.projectiles.Keys <= w.projectiles.Keys
      && (forall x :: x in w.projectiles && x != id ==> x in o.world.projectiles && o.world.projectiles[x] == w.projectiles[x])
      && (forall x :: x != id ==> ExplosionsOf(o.events, x) == 0)
      && (if Explodes(w.players, w.order, pr, now)
          then id !in o.world.projectiles && ExplosionsOf(o.events, id) == 1
          else o.world.projectiles[id] == pr && o.events == [] && o.world.players == w.players)
      && (id in o.world.projectiles ==> pr.position.y > 0.5 && now < pr.ttlAt)
  {
    var pr := Advance(w.projectiles[id]);
    if Explodes(w.players, w.order, pr, now) {
      ExplodeFate(w, id, now, draw);
    } else {
      assert StepProjectile(w, id, now, draw) == Outcome(w.(projectiles := w.projectiles[id := pr]), []);
    }
  }

  /** A rocket that explodes is removed, with one `projectile_explode` for
      it and none for any other rocket, and the world stays well formed. */
  lemma ExplodeFate(w: World, id: ProjectileId, now: int, draw: nat -> nat)
    requires WorldValid(w) && id in w.projectiles
    requires Explodes(w.players, w.order, Advance(w.projectiles[id]), now)
    ensures var o := StepProjectile(w, id, now, draw);
      && WorldValid(o.world)
      && o.world.projectiles == w.projectiles - {id}
      && (forall x :: ExplosionsOf(o.events, x) == if x == id then 1 else 0)
  {
    var pr := Advance(w.projectiles[id]);
    var e := Splash(w.players, w.order, pr.position, pr.owner, draw);
    var w' := w.(players := e.players, projectiles := w.projectiles - {id}, projOrder := Without(w.projOrder, id));
    var o := StepProjectile(w, id, now, draw);
    assert o == Outcome(w', e.events + [Exploded(pr.id, pr.position)]);
    SplashKeepsValid(w.players, w.order, pr.position, pr.owner, draw);
    WithoutDistinct(w.projOrder, id);
    forall x ensures ExplosionsOf(o.events, x) == (if x == id then 1 else 0) {
      SplashCounts(w.players, w.order, pr.position, pr.owner, draw, x);
      CountsAppend(e.events, [Exploded(pr.id, pr.position)], x);
      CountsSingle(Exploded(pr.id, pr.position), x);
    }
  }

  // ---------------------------------------------------------------------
  // The tick

  /** The projectile loop over a snapshot `ids` of the rockets; rocket `j`
      of the snapshot uses the spawn draws `draws(j)`. */
  function TickSteps(w: World, ids: seq<ProjectileId>, now: int, draws: nat -> nat -> nat): (o: Outcome)
    requires AllRegistered(w.players, w.order)
    ensures o.world.players.Keys == w.players.Keys && o.world.order == w.order
  {
    if ids == [] then Outcome(w, [])
    else
      var n := |ids| - 1;
      var o := TickSteps(w, ids[..n], now, draws);
      var s := StepProjectile(o.world, ids[n], now, draws(n));
      Outcome(s.world, o.events + s.events)
  }

  /** The public part of a player: everything but its inventory, its
      cooldown stamps and its join time. */
  predicate Shows(v: PlayerView, p: Player) {
    && v.id == p.id && v.name == p.name && v.position == p.position && v.rotation == p.rotation
    && v.health == p.health && v.weapon == p.currentWeapon && v.kills == p.kills && v.deaths == p.deaths
  }

  /** What `broadcastWorld` sends: every player and every rocket, in
      iteration order. */
  function Broadcast(w: World): (e: Event)
    requires AllRegistered(w.players, w.order)
    requires forall k :: 0 <= k < |w.projOrder| ==> w.projOrder[k] in w.projectiles
    ensures e.WorldState? && |e.views| == |w.order| && |e.rockets| == |w.projOrder|
    ensures forall k :: 0 <= k < |w.order| ==> Shows(e.views[k], w.players[w.order[k]])
    ensures forall k :: 0 <= k < |w.projOrder| ==>
      e.rockets[k].id == w.projectiles[w.projOrder[k]].id && e.rockets[k].position == w.projectiles[w.projOrder[k]].position
  {
    WorldState(
      seq(|w.order|, k requires 0 <= k < |w.order| =>
        var p := w.players[w.order[k]];
        PlayerView(p.id, p.name, p.position, p.rotation, p.health, p.currentWeapon, p.kills, p.deaths)),
      seq(|w.projOrder|, k requires 0 <= k < |w.projOrder| =>
        var pr := w.projectiles[w.projOrder[k]];
        ProjectileView(pr.id, pr.position)))
  }

  /** One tick: every rocket steps, then the world is broadcast. */
  function Tick(w: World, now: int, draws: nat -> nat -> nat): (o: Outcome)
    requires WorldValid(w)
    ensures o.world.players.Keys == w.players.Keys && o.events != [] && o.events[|o.events| - 1].WorldState?
  {
    var o := TickSteps(w, w.projOrder, now, draws);
    TickStepsFate(w, w.projOrder, now, draws);
    Outcome(o.world, o.events + [Broadcast(o.world)])
  }

  /** Over a snapshot of distinct rockets: the world stays well formed, no
      rocket appears, each rocket of the snapshot either survives moved by
      exactly one step or is gone with exactly one explosion, and rockets
      outside the snapshot are untouched and not exploded. */
  lemma {:induction false} TickStepsFate(w: World, ids: seq<ProjectileId>, now: int, draws: nat -> nat -> nat)
    requires WorldValid(w) && Distinct(ids)
    ensures var o := TickSteps(w, ids, now, draws);
      && WorldValid(o.world)
      && o.world.projectiles.Keys <= w.projectiles.Keys
      && (forall x :: x in w.projectiles && x !in ids ==> x in o.world.projectiles && o.world.projectiles[x] == w.projectiles[x])
      && (forall x :: x !in ids ==> ExplosionsOf(o.events, x) == 0)
      && (forall x :: x in w.projectiles && x in ids ==>
            if x in o.world.projectiles
            then o.world.projectiles[x] == Advance(w.projectiles[x]) && ExplosionsOf(o.events, x) == 0
            else ExplosionsOf(o.events, x) == 1)
  {
    TickStepsValid(w, ids, now, draws);
    forall x {
      TickStepsFateOf(w, ids, now, draws, x);
    }
  }

  /** The snapshot loop keeps the world well formed and adds no rocket. */
  lemma {:induction false} TickStepsValid(w: World, ids: seq<ProjectileId>, now: int, draws: nat -> nat -> nat)
    requires WorldValid(w)
    ensures var o := TickSteps(w, ids, now, draws);
      WorldValid(o.world) && o.world.projectiles.Keys <= w.projectiles.Keys
  {
    if ids != [] {
      var n := |ids| - 1;
      TickStepsValid(w, ids[..n], now, draws);
      var o := TickSteps(w, ids[..n], now, draws);
      if ids[n] in o.world.projectiles {
        StepProjectileFate(o.world, ids[n], now, draws(n));
      }
    }
  }

  /** The fate of one rocket `x` over the snapshot loop. */
  lemma {:induction false} TickStepsFateOf(w: World, ids: seq<ProjectileId>, now: int, draws: nat -> nat -> nat, x: ProjectileId)
    requires WorldValid(w) && Distinct(ids)
    ensures var o := TickSteps(w, ids, now, draws);
      && (x in w.projectiles && x !in ids ==> x in o.world.projectiles && o.world.projectiles[x] == w.projectiles[x])
      && (x !in ids ==> ExplosionsOf(o.events, x) == 0)
      && (x in w.projectiles && x in ids ==>
            if x in o.world.projectiles
            then o.world.projectiles[x] == Advance(w.projectiles[x]) && ExplosionsOf(o.events, x) == 0
            else ExplosionsOf(o.events, x) == 1)
  {
    if ids != [] {
      var n := |ids| - 1;
      var init := ids[..n];
      var id := ids[n];
      assert Distinct(init);
      assert id !in init;
      assert x in ids <==> x in init || x == id;
      TickStepsFateOf(w, init, now, draws, x);
      TickStepsValid(w, init, now, draws);
      var o := TickSteps(w, init, now, draws);
      var s := StepProjectile(o.world, id, now, draws(n));
      assert TickSteps(w, ids, now, draws) == Outcome(s.world, o.events + s.events);
      CountsAppend(o.events, s.events, x);
      if id !in o.world.projectiles {
        assert s == Outcome(o.world, []);
      } else if x == id {
        StepProjectileFate(o.world, id, now, draws(n));
      } else {
        StepProjectileFate(o.world, id, now, draws(n));
        assert ExplosionsOf(s.events, x) == 0;
        assert x in o.world.projectiles ==> x in s.world.projectiles && s.world.projectiles[x] == o.world.projectiles[x];
        assert x in s.world.projectiles ==> x in o.world.projectiles;
      }
    }
  }

  /** One more rocket of the snapshot: the fold grows by one step. */
  lemma TickStepsExtend(w: World, ids: seq<ProjectileId>, j: nat, now: int, draws: nat -> nat -> nat)
    requires AllRegistered(w.players, w.order) && j < |ids|
    ensures var before := TickSteps(w, ids[..j], now, draws);
      var step := StepProjectile(before.world, ids[j], now, draws(j));
      TickSteps(w, ids[..j + 1], now, draws) == Outcome(step.world, before.events + step.events)
  {
    assert ids[..j + 1][..j] == ids[..j];
  }

  /** A tick keeps the world well formed, leaves the set of players as it
      was, and for every rocket in flight before it: the rocket survives,
      moved by one step and not exploded, or is gone with exactly one
      `projectile_explode`. Rockets past their expiry or at the floor after
      the step are always gone. The last event is the world broadcast. */
  lemma TickFate(w: World, now: int, draws: nat -> nat -> nat, x: ProjectileId)
    requires WorldValid(w) && x in w.projectiles
    ensures var o := Tick(w, now, draws);
      var pr := Advance(w.projectiles[x]);
      && WorldValid(o.world)
      && o.world.players.Keys == w.players.Keys
      && o.world.projectiles.Keys <= w.projectiles.Keys
      && (x in o.world.projectiles ==> o.world.projectiles[x] == pr && ExplosionsOf(o.events, x) == 0)
      && (x !in o.world.projectiles ==> ExplosionsOf(o.events, x) == 1)
      && (pr.position.y <= 0.5 || now >= pr.ttlAt ==> x !in o.world.projectiles)
      && o.events[|o.events| - 1].WorldState?
  {
    var o := TickSteps(w, w.projOrder, now, draws);
    TickStepsFate(w, w.projOrder, now, draws);
    CountsAppend(o.events, [Broadcast(o.world)], x);
    CountsSingle(Broadcast(o.world), x);
    TickRemovesExpired(w, w.projOrder, now, draws, x);
  }

  lemma {:induction false} TickRemovesExpired(w: World, ids: seq<ProjectileId>, now: int, draws: nat -> nat -> nat, x: ProjectileId)
    requires WorldValid(w) && Distinct(ids) && x in w.projectiles && x in ids
    ensures var pr := Advance(w.projectiles[x]);
      pr.position.y <= 0.5 || now >= pr.ttlAt ==> x !in TickSteps(w, ids, now, draws).world.projectiles
  {
    var n := |ids| - 1;
    var init := ids[..n];
    assert Distinct(init);
    TickStepsFate(w, init, now, draws);
    var o := TickSteps(w, init, now, draws);
    if ids[n] == x {
      assert x !in init;
      StepProjectileFate(o.world, x, now, draws(n));
    } else {
      assert x in init;
      TickRemovesExpired(w, init, now, draws, x);
      if ids[n] in o.world.projectiles {
        StepProjectileFate(o.world, ids[n], now, draws(n));
      }
    }
  }
}
