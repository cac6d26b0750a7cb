# Arena combat server — a verified model

This project models the authoritative combat simulation of a multiplayer
arena shooter: the server in `server/index.js`. The server keeps two
registries in memory. One is the connected players, each with a position,
rotation, health, score, weapon inventory and per-weapon cooldown stamps.
The other is the rockets in flight. Four socket handlers and one timer
change them:

- `connection` creates a player on a random spawn point and sends it `init`.
- `state` clamps and stores position and rotation, and switches the held
  weapon when the player owns it.
- `shoot` checks the weapon, ownership and cooldown. It then fires one of
  three weapon kinds:
  - a rocket, which is stored and announced;
  - a piercing rail, which damages every player along the ray;
  - pellet guns (rifle, shotgun), where each pellet damages the nearest
    player on its ray and damage is summed per target.
- `disconnect` removes the player.
- A tick every 50 ms moves each rocket. A rocket explodes on the floor, at
  the end of its lifetime, or next to a player other than its owner. It
  deals linear splash damage, and then the world is broadcast.

Every hit follows one damage protocol. Health is clamped at zero. The
target is sent `hit` and the shooter is sent `confirm_hit`. A hit that
takes a live target to zero gives the attacker a kill and the target a
death. The target then respawns at full health on a fixed spawn point and
is sent `died`.

The model has two layers.

- **Pure modules.** `Geometry`, `Weapons`, `Combat`, `Raycast`, `Handlers`
  and `Projectiles` describe each handler as a function from the world
  before to the world after, plus the list of emitted events. Lemmas prove
  what the server promises about these functions.
- **The `Server.Server` class.** It holds the registries as fields: maps
  plus their iteration order, which is JavaScript's `Map` insertion order.
  It also holds the log of every emit. Its methods are the loops of the
  source: the pellet loop, the per-target damage loop, the splash loop,
  the proximity scan and the rocket loop of the tick. Every method is
  proved to produce exactly what its pure function describes. Each handler
  method (the constructor, `Connect`, `UpdateState`, `Disconnect`,
  `Shoot` and `Tick`) also keeps the world well formed; the helper loops
  (`Strike`, `StrikeAll`, `LaunchRocket`, `SplashAround`, `StepRocket`)
  only promise their pure function.
- **The two raycasts.** The player scans of `raycastFirstHit` and
  `raycastAllHits` are the module methods `Raycast.RaycastFirstHit` and
  `Raycast.RaycastAllHits`. The class calls them on its registries, and
  each is proved against an independent description of its result.

The world is well formed (`Combat.WorldValid`) when:

- every player is stored under its own id;
- every player's health is in `1..100` between handlers;
- every player owns all four weapons and holds one of them;
- the iteration orders list each key exactly once.

Parameters stand in for everything nondeterministic or external:

- The spawn draw is a `nat`, reduced modulo 6.
- The pellet jitter is a function from pellet number to the two
  `Math.random()` values of that pellet.
- The uuid of a new rocket, `Date.now()` and `Math.sqrt` are passed in.

Events are values: `Init`, `Hit`, `ConfirmHit`, `Died`, `Spawned`,
`Exploded` and `WorldState`, each with its addressee.

The model follows the code, with one exception: the weapon switch of the
`state` handler is modelled as corrected. The code accepts names inherited
from `Object.prototype` (see "## Findings"); the model's `state` handler
accepts only owned weapons. Some modelling notes:

- **Height clamp.** A `state` position is clamped to `[-10, 1000]` on the
  y axis, not `[-1000, 1000]` as on the other axes.
- **Rounding.** Splash damage rounds half up (`Math.round`). For the
  non-negative amounts that occur, this equals rounding half away from
  zero.
- **Iteration order.** The order in which players are visited is kept. It
  decides which spawn draw each victim uses, the order of events, and the
  order of piercing hits at equal distance. Those are kept in iteration
  order, a stable sort.
- **Health bound.** Health stays in `1..100` between handlers, which is
  stronger than `0..100`.

## Model

| member | source | states |
|---|---|---|
| Geometry.Clamp | server/index.js:60-62 | the result lies in `[lo, hi]`; a value already inside is kept; below `lo` gives `lo`, above `hi` gives `hi` |
| Geometry.Normalize | server/index.js:68-72 | a zero-length vector gives the zero vector; otherwise the result scaled by the length is the input |
| Geometry.DistSqToRay | server/index.js:90-98 | the squared distance from a point to the clamped ray is never negative |
| Geometry.RayDistancePerpendicular | server/index.js:90-98 | for a unit direction and a point projecting inside `[0, range]`, the squared ray distance is the squared distance minus the squared forward projection (Pythagoras) |
| Geometry.RayDistanceBehindOrigin | server/index.js:90-98 | a point behind the origin is measured from the origin itself |
| Weapons.CatalogEntries | server/index.js:35-40 | proof aid: looks up the four entries of the weapon table, with the source's constants, so proofs can use them without unfolding the map |
| Weapons.CatalogShape | server/index.js:200-222 | the only launcher in the table is `rocket`, so dispatching on the weapon kind is the source's `weaponKey === 'rocket'`; the starting inventory owns exactly the table's keys |
| Weapons.PrototypeNameAccepted | server/index.js:191 | the inventory lookup as written accepts `constructor`, which is neither owned nor a weapon; it agrees with own-key ownership on every real weapon |
| Combat.SpawnPoint | server/index.js:56-58 | whatever the draw, the result is one of the six fixed spawn points |
| Combat.Struck | server/index.js:239-253 | one hit keeps the set of registered players |
| Combat.StruckTarget | server/index.js:241-252 | the target's health stays in `[0, 100]` and a live target stays alive; exactly when the hit kills a live target, its deaths rise by one and it is at full health on a spawn point; otherwise only its health changes, to the difference clamped at zero; a target already at zero scores nothing |
| Combat.StruckOthers | server/index.js:245-247 | the attacker gains exactly one kill when the hit kills and nothing else changes; a self-kill counts a kill and a death; nobody else is touched |
| Combat.StruckEvents | server/index.js:243-251 | one hit emits first `hit` to the target with its clamped health and the attacker's id, then `confirm_hit` to the attacker naming the target and the same health, and then at most a `died`; in all, exactly one `hit` to the target and one `confirm_hit` about it; a `died` to the target exactly when the hit kills it, naming the attacker and the spawn point the target now stands on; and no explosion |
| Combat.StruckKeepsLoadout | server/index.js:239-253 | a hit never changes anyone's id, name, rotation, cooldowns, weapon, inventory or join time |
| Combat.StruckKeepsPlayersValid | server/index.js:245-252 | a hit keeps every player valid, health within `1..100` afterwards |
| Combat.CountsAppend | server/index.js:243-244 | counting `hit`, `confirm_hit`, `died` and explosion events distributes over concatenated logs |
| Raycast.FirstHitInCorrect | server/index.js:100-113 | the first hit is absent exactly when no player qualifies; otherwise it is a qualifying player with its forward distance, no qualifying player is strictly nearer, and among equally near ones it is the earliest in iteration order |
| Raycast.FirstHitUnique | server/index.js:100-113 | that characterisation of the first hit determines it uniquely |
| Raycast.RaycastFirstHit | server/index.js:100-113 | the player scan returns the first hit as characterised above |
| Raycast.FirstHitIn | server/index.js:100-113 | a first hit names an eligible player of the scan with its forward distance; `Raycast.FirstHitInCorrect` and `Raycast.FirstHitUnique` characterise it fully |
| Raycast.SortByForwardProperties | server/index.js:127 | sorting by forward distance yields a sorted sequence with the same elements, keeping targets distinct |
| Raycast.SortByForwardStable | server/index.js:127 | the sort is stable: hits at any one forward distance keep their order |
| Raycast.SortByForward | server/index.js:127 | the sort keeps the number of hits; `Raycast.SortByForwardProperties`, `Raycast.SortByForwardPermutes` and `Raycast.SortByForwardStable` characterise it |
| Raycast.SortByForwardPermutes | server/index.js:127 | the sorted hits are a permutation of the collected ones |
| Raycast.Collect | server/index.js:115-126 | the scan collects at most one hit per player, each an eligible player of the scan; `Raycast.CollectCorrect` characterises it fully |
| Raycast.CollectCorrect | server/index.js:115-126 | the scan collects exactly the qualifying players, each with its forward distance, each once |
| Raycast.AllHitsInCorrect | server/index.js:115-129 | all hits: sorted nearest first, exactly the qualifying players, each once, with ties in iteration order |
| Raycast.AllHitsIn | server/index.js:115-129 | all hits are as many as the collected ones and no more than the players; `Raycast.AllHitsInCorrect` characterises them |
| Raycast.RaycastAllHits | server/index.js:115-129 | the player scan plus sort returns exactly the hits characterised above |
| Handlers.Roster | server/index.js:170 | `Array.from(players.values())` lists every player in iteration order |
| Handlers.Connect | server/index.js:148-171 | the new id joins the registered players and only the newcomer is sent `init`, carrying its own record; characterised by `Handlers.ConnectKeepsValid` and `Handlers.ConnectNewPlayer` |
| Handlers.ConnectKeepsValid | server/index.js:148-165 | a connection keeps the world well formed, adds exactly the new id, and leaves everyone else and every rocket as they were |
| Handlers.ConnectNewPlayer | server/index.js:148-171 | the newcomer has full health on a spawn point, no score, the rifle, no cooldowns, the join time and the given or generated name; it alone is sent `init`, with a roster that includes it |
| Handlers.JoinKeepsValid | server/index.js:165 | storing a valid player keeps the world well formed and touches nobody else |
| Handlers.Disconnect | server/index.js:288-290 | the id leaves the registry and the iteration order, and rockets stay in flight; characterised by `Handlers.DisconnectRemoves` |
| Handlers.DisconnectRemoves | server/index.js:288-290 | after `disconnect` the player is gone, nobody else changed, the world is well formed, and a second `disconnect` changes nothing |
| Handlers.ClampPosition | server/index.js:176-182 | the stored position is inside the arena bounds, and a position already inside is kept |
| Handlers.ClampRotation | server/index.js:183-189 | pitch and yaw are within `[-PI, PI]` and roll is zero; in-range angles (missing pitch read as 0) are kept |
| Handlers.SwitchWeapon | server/index.js:190-192 | a held weapon stays an owned one; an owned request is honoured; the weapon changes only to the requested one, and nothing else changes |
| Handlers.SwitchWeaponAsWritten | server/index.js:190-192 | the switch as written changes only the held weapon |
| Handlers.SwitchWeaponAsWrittenAcceptsPrototypeName | server/index.js:191 | as written, `weapon: "constructor"` makes a valid player hold a weapon that is neither owned nor in the table; the corrected switch refuses it |
| Handlers.Sanitize | server/index.js:173-193 | each present field is clamped into range (and kept when in range), absent fields are untouched, validity is preserved, and only position, rotation and weapon can change |
| Handlers.UpdateState | server/index.js:173-193 | only the sender's record can change: the roster, the order, the rockets and everyone else are kept; characterised by `Handlers.Sanitize` and `Handlers.UpdateStateKeepsValid` |
| Handlers.UpdateStateKeepsValid | server/index.js:173-193 | `state` keeps the world well formed, keeps the roster, and touches only the sender |
| Handlers.AimDirection | server/index.js:216-220 | the direction before normalising is never the zero vector, because a missing or zero z becomes 1 |
| Handlers.PelletHits | server/index.js:259-263 | one first-hit result per pellet |
| Handlers.PelletTallyStep | server/index.js:259-268 | the tally of `n + 1` pellets adds pellet `n`'s first hit to the tally of `n` |
| Handlers.TallyTargets | server/index.js:258-268 | `damageByTarget` lists each target once, and lists exactly the targets that have damage |
| Handlers.TallyDamage | server/index.js:264-267 | a player has damage exactly when some pellet hit it, and the damage is the per-pellet damage times the number of pellets that hit it |
| Handlers.TallyOf | server/index.js:257-268 | the tally lists at most one target per pellet; characterised by `Handlers.TallyTargets` and `Handlers.TallyDamage` |
| Handlers.StrikeEach | server/index.js:270-285 | striking each target in turn keeps the set of registered players |
| Handlers.StrikeEachKeepsValid | server/index.js:270-285 | striking every target keeps every player valid |
| Handlers.StrikeEachEvents | server/index.js:270-285 | one `hit` and one `confirm_hit` per distinct registered target; a `died` to each target its damage kills, judged on its health before the shot; none of these for anyone else; no explosion |
| Handlers.StrikeEachHealth | server/index.js:270-285 | a player who is not a target keeps its health through the loop |
| Handlers.StrikeEachFrame | server/index.js:270-285 | a player who is neither a target nor the attacker is unchanged |
| Handlers.StrikeEachDamage | server/index.js:273-275 | each target other than the attacker takes its summed damage in one step: its `hit`, and the attacker's `confirm_hit` about it, carry its health before the shot minus that damage, clamped at zero |
| Handlers.StrikeEachTarget | server/index.js:270-285 | a distinct target other than the attacker, at position `i`, ends either alive with its health less its damage (clamped at zero) and nothing else changed, or, when the damage kills it, at full health on the spawn point of draw `i` with exactly one more death |
| Handlers.StrikeEachAttacker | server/index.js:270-285 | an attacker that is not a target gains exactly one kill per target its damage kills (judged on health before the shot), and nothing else of it changes |
| Handlers.StrikeEachKeepsLoadout | server/index.js:270-285 | striking never changes anyone's weapon, inventory, cooldowns, name or rotation |
| Handlers.PierceDamage | server/index.js:239-242 | every pierced player takes the weapon's full damage |
| Handlers.ShootIgnored | server/index.js:195-206 | a shot from an unknown socket, with an unknown or unowned weapon, or inside the cooldown changes nothing and emits nothing |
| Handlers.ShootStamps | server/index.js:204-209 | an admitted shot is at least one cooldown after the last one and records `now` for its weapon; without an origin or direction nothing else happens |
| Handlers.StampKeepsValid | server/index.js:207 | recording the shot time keeps the world well formed and the roster as it is |
| Handlers.LaunchKeepsValid | server/index.js:222-233 | storing a rocket keeps the world well formed and the players as they are |
| Handlers.FireKeepsValid | server/index.js:222-285 | whatever the weapon, firing keeps the world well formed and the roster as it is |
| Handlers.ShootKeepsValid | server/index.js:195-286 | every `shoot`, admitted or not, keeps the world well formed and the roster as it is |
| Handlers.ShootFires | server/index.js:209-222 | an admitted, aimed shot is the weapon acting from the decoded origin and normalised direction on the stamped world |
| Handlers.Fire | server/index.js:222-285 | whatever the weapon, firing keeps the roster and the iteration order; characterised by `Handlers.FirePierce`, `Handlers.FirePellets` and `Handlers.FireKeepsValid` |
| Handlers.Shoot | server/index.js:195-286 | the `shoot` handler; characterised by `Handlers.ShootIgnored`, `Handlers.ShootStamps`, `Handlers.ShootFires`, `Handlers.ShootKeepsValid`, `Handlers.ShootRocket`, `Handlers.ShootRail` and `Handlers.ShootPellets` |
| Handlers.FirePierce | server/index.js:237-255 | a piercing weapon sends one `hit` and one `confirm_hit` for each qualifying player and none for anyone else; each pierced player's health drops by the full damage, clamped at zero, and it is sent `died` exactly when that kills it; rockets are untouched |
| Handlers.FirePellets | server/index.js:257-285 | a pellet weapon sends one `hit` and one `confirm_hit` for each player some pellet hit and none for anyone else; each such player's health drops by damage times pellets, clamped at zero, and it is sent `died` exactly when that total kills it; rockets are untouched |
| Handlers.ShootRocket | server/index.js:222-234 | an aimed rocket shot stores one rocket owned by the shooter at the origin, with velocity 45 times the direction and a lifetime of 3000 ms; other rockets are kept, only `projectile_spawn` is emitted, and only the shooter's stamp changes among players |
| Handlers.ShootRail | server/index.js:237-255 | an aimed rail shot: every qualifying player gets exactly one `hit` and one `confirm_hit` with 90 damage, and a `died` exactly when that kills it; nobody else is told anything, and rockets are untouched |
| Handlers.ShootPellets | server/index.js:257-285 | an aimed rifle or shotgun shot: every player some pellet hit gets one `hit` and one `confirm_hit` with 25 or 12 damage per pellet, and a `died` exactly when the total kills it; nobody else is told anything |
| Projectiles.Advance | server/index.js:299 | a rocket moves by its velocity times 50 ms, and nothing else of it changes |
| Projectiles.SplashFrom | server/index.js:324-326 | the downward search returns the largest damage level whose reach covers the squared distance |
| Projectiles.SplashDamage | server/index.js:324-326 | splash damage never exceeds 85 |
| Projectiles.SplashDamageRounds | server/index.js:324-326 | for a distance `d` in `[0, 6]`, the damage is `Math.round((1 - d / 6) * 85)`, computed from the squared distance alone |
| Projectiles.SplashMonotone | server/index.js:324-326 | farther players never take more splash damage |
| Projectiles.SplashSamples | server/index.js:324-326 | 85 damage at the centre, 43 at distance 3, 0 at the rim |
| Projectiles.Splash | server/index.js:319-343 | the splash keeps the set of registered players |
| Projectiles.SplashTurn | server/index.js:319-327 | each player's splash is decided on its own position and health before the explosion, since earlier victims change only themselves |
| Projectiles.SplashFrame | server/index.js:319-343 | a player outside the iteration order keeps its position and health |
| Projectiles.SplashCounts | server/index.js:319-343 | each player with positive splash damage gets exactly one `hit` and one `confirm_hit`, and one `died` exactly when the splash kills it; nobody else gets any, and no explosion is emitted |
| Projectiles.SplashHit | server/index.js:328-331 | each victim's `hit`, and the owner's `confirm_hit` about it, carry its health before the explosion minus its splash damage, clamped at zero, attributed to the rocket's owner |
| Projectiles.SplashQuiet | server/index.js:319-343 | a player the splash does not reach keeps its whole record; if it is the owner, only its kills can change |
| Projectiles.SplashVictim | server/index.js:319-343 | a victim at position `i` ends either alive with its health less its splash damage (clamped at zero), or, when that kills it, at full health on the spawn point of draw `i` with exactly one more death; nothing else of it changes, except an owner's kills |
| Projectiles.SplashOwnerKills | server/index.js:328-341 | a registered owner gains exactly one kill per player its rocket kills, itself included |
| Projectiles.SplashKeepsValid | server/index.js:319-343 | the splash keeps every player valid, including the owner hurt by its own rocket |
| Projectiles.StepProjectile | server/index.js:298-346 | stepping a rocket keeps the roster and the iteration order |
| Projectiles.StepProjectileFate | server/index.js:298-346 | a stepped rocket either explodes (removed, one `projectile_explode`) or survives moved by one step with no events; other rockets are untouched; a survivor is above the floor and not expired; the world stays well formed |
| Projectiles.ExplodeFate | server/index.js:316-346 | an exploding rocket is removed with exactly one `projectile_explode` for it and none for any other rocket |
| Projectiles.TickSteps | server/index.js:298-347 | the rocket loop keeps the roster and the iteration order |
| Projectiles.TickStepsValid | server/index.js:298-347 | the rocket loop keeps the world well formed and adds no rocket |
| Projectiles.TickStepsFateOf | server/index.js:298-347 | over a snapshot of distinct rockets, each rocket of the snapshot either survives moved by one step or is gone with exactly one explosion; rockets outside the snapshot are untouched |
| Projectiles.TickStepsFate | server/index.js:298-347 | the same for every rocket at once, with the world well formed |
| Projectiles.TickStepsExtend | server/index.js:298 | the loop over one more rocket is the loop so far followed by one step |
| Projectiles.TickRemovesExpired | server/index.js:302 | a rocket that reaches the floor or outlives its lifetime is always removed |
| Projectiles.Broadcast | server/index.js:131-146 | the broadcast lists every player in iteration order with its id, name, position, rotation, health, weapon, kills and deaths, and every rocket in iteration order with its id and position |
| Projectiles.TickFate | server/index.js:293-350 | a tick keeps the world well formed and the roster; each rocket either survives moved by one step without exploding or is gone with exactly one explosion; rockets on the floor or expired are gone; the last event is the world broadcast |
| Projectiles.Tick | server/index.js:293-350 | a tick keeps the roster and ends with the world broadcast; characterised by `Projectiles.TickFate` and `Projectiles.TickRemovesExpired` |
| Scenarios.FirstHitIsB | server/index.js:100-113 | from (0, 1.6, 0) along +z, the first hit skipping the shooter is the target standing z units ahead |
| Scenarios.RifleScenario | server/index.js:195-285 | a rifle shot along +z at a full-health target anywhere within range leaves it at 75, emitting exactly `hit` and `confirm_hit` with 75 remaining |
| Scenarios.CooldownScenario | server/index.js:204-207 | a second rifle shot 50 ms after an admitted one changes nothing and emits nothing, and the recorded time stays that of the first |
| Server.Server.constructor | server/index.js:42-45 | the server starts with no players, no rockets and no events, in a well-formed state |
| Server.Server.Connect | server/index.js:148-171 | the handler produces the world and the events of `Handlers.Connect` and keeps the state well formed |
| Server.Server.UpdateState | server/index.js:173-193 | the handler produces the world of `Handlers.UpdateState`, emits nothing, and keeps the state well formed |
| Server.Server.Disconnect | server/index.js:288-290 | the handler produces the world of `Handlers.Disconnect`, emits nothing, and keeps the state well formed |
| Server.Server.Strike | server/index.js:239-253 | one damage step in place updates the players as `Combat.Struck` does, appends its events, and leaves the orders and the rockets alone |
| Server.Server.StrikeAll | server/index.js:270-285 | the per-target loop updates the players as `Handlers.StrikeEach` does and appends its events |
| Server.Server.LaunchRocket | server/index.js:222-233 | storing a rocket in place matches `Handlers.Launch` |
| Server.Server.TallyPellets | server/index.js:257-268 | the pellet loop builds exactly the tally of the pellets' first hits |
| Server.Server.CastPellet | server/index.js:260-267 | one pellet adds its first hit to the tally |
| Server.Server.RecordShot | server/index.js:207 | recording the shot time matches `Handlers.Stamp`, emits nothing, and keeps the state well formed |
| Server.Server.FireWeapon | server/index.js:222-285 | firing an admitted weapon matches `Handlers.Fire` and keeps the state well formed |
| Server.Server.Shoot | server/index.js:195-286 | the handler produces the world and the events of `Handlers.Shoot` and keeps the state well formed |
| Server.Server.ProximityTriggered | server/index.js:304-314 | the scan finds a non-owner player within distance 1 exactly when one exists |
| Server.Server.SplashAround | server/index.js:319-343 | the splash loop updates the players as `Projectiles.Splash` does and appends its events |
| Server.Server.StepRocket | server/index.js:298-346 | stepping one rocket in place matches `Projectiles.StepProjectile` |
| Server.Server.Tick | server/index.js:293-350 | the tick produces the world and the events of `Projectiles.Tick` and keeps the state well formed |

## Left out

- The HTTP server, Express static files, Socket.IO transport and `listen`
  are not modelled. Emits are recorded as `Event` values with their
  addressee instead of being sent.
- The `setInterval` timer is not modelled: `Tick` is a method the caller
  invokes. Handlers run one at a time, as in the single-threaded server,
  so concurrency is not modelled.
- `Math.random()`, `uuidv4()` and `Date.now()` are not modelled. They
  become parameters: a spawn draw (`draw % 6` for
  `Math.floor(Math.random() * 6)`), the jitter pair of each pellet, the
  rocket id, and `now`.
- `Math.sqrt` is a parameter of normalisation only. Distances are compared
  on squares, which agree with the source's square roots on exact reals.
- Floating point is not modelled. Coordinates are exact reals, so rounding
  error, `NaN` and infinities are not represented.
  - Of the finiteness checks, only the two the `state` handler makes
    (`position.x`, `rotation.y`) are modelled, as the presence of the
    field.
  - The other coordinates of a `state` message are taken to be finite
    numbers.
  - `Number(...)` of a `shoot` coordinate is either a number or absent.
- `.toString()` on the connection's `name` query is not modelled; the name
  is a string.
- The client code is not part of this model.
- Handlers.ShootMsg: `weapon` is a string. The server also accepts
  non-string values, and property lookup coerces them to keys. These are
  not modelled.
- Handlers.Shoot: a weapon key found only on `Object.prototype` (for
  example `constructor`) is treated as unknown, so the shot is ignored.
  The server as written passes all gates for such a key, records a
  timestamp under that name, and then fires nothing. The timestamp is
  visible in later `init` rosters.
- Handlers.Sanitize / Handlers.UpdateState / Server.Server.UpdateState:
  these use the corrected weapon switch from the "## Findings" row. The
  server as written also switches to `constructor` and other inherited
  names. Its player then holds a weapon it does not own, which is outside
  `Combat.WorldValid`. `Handlers.SwitchWeaponAsWritten` models that
  behaviour.
- Projectiles.Tick: requires a well-formed world. The corrected server
  (with the own-key weapon switch) only ever reaches well-formed worlds,
  as `Server.Server` proves for every handler. The server as written can
  leave that set through the inherited-name switch above. The tick does
  not read the held weapon, but the model does not prove the tick for
  such worlds.

## Findings

| source | as written | input that shows it | evidently intended | confidence | as-written member | corrected member |
|---|---|---|---|---|---|---|
| server/index.js:190-191 | `p.inventory[data.weapon]` is truthy for names inherited from `Object.prototype`, so the switch accepts them | a `state` message with `weapon: "constructor"` | switch only to a weapon the player owns | high, not executed | Handlers.SwitchWeaponAsWrittenAcceptsPrototypeName | Handlers.SwitchWeapon |
