/** The weapon table `WEAPONS` and the inventory test of server/index.js
    (lines 35-40, 160, 191, 200-202). */
module Weapons {

  /** A hitscan gun (rifle, shotgun, rail) or the rocket launcher. Times are
      milliseconds, distances world units. */
  datatype Weapon =
    | Hitscan(cooldownMs: int, pellets: nat, spread: real, damage: nat, range: real, pierce: bool)
    | Launcher(cooldownMs: int, speed: real, ttlMs: int, splashRadius: real, splashMax: nat)

  const Rifle: Weapon := Hitscan(180, 1, 0.0, 25, 120.0, false)
  const Shotgun: Weapon := Hitscan(800, 8, 0.06, 12, 40.0, false)
  const Rocket: Weapon := Launcher(900, 45.0, 3000, 6.0, 85)
  const Rail: Weapon := Hitscan(1200, 1, 0.0, 90, 300.0, true)

  /** `WEAPONS`, keyed by the weapon name a client sends. */
  const Catalog: map<string, Weapon> :=
    map["rifle" := Rifle, "shotgun" := Shotgun, "rocket" := Rocket, "rail" := Rail]

  /** The inventory every player is given on connection. */
  const FullInventory: map<string, bool> :=
    map["rifle" := true, "shotgun" := true, "rocket" := true, "rail" := true]

  /** The weapon a newly connected player holds. */
  const DefaultWeapon: string := "rifle"

  /** `inventory[key]` is truthy, counting only the inventory's own
      entries. */
  predicate Owns(inventory: map<string, bool>, key: string) {
    key in inventory && inventory[key]
  }

  /** The four table entries by name. */
  lemma CatalogEntries()
    ensures Catalog["rifle"] == Rifle && Catalog["shotgun"] == Shotgun
    ensures Catalog["rocket"] == Rocket && Catalog["rail"] == Rail
  {
  }

  /** Only the rocket is a launcher, so dispatching on the weapon's shape is
      dispatching on `weaponKey === 'rocket'`; and every owned weapon of the
      full inventory is in the table. */
  lemma CatalogShape(key: string)
    ensures key in Catalog && Catalog[key].Launcher? <==> key == "rocket"
    ensures Owns(FullInventory, key) <==> key in Catalog
  {
  }

  /** Names that every plain JavaScript object answers with a truthy value
      through its prototype, `Object.prototype`. */
  const PrototypeMembers: set<string> := {
    "constructor", "toString", "toLocaleString", "valueOf", "hasOwnProperty",
    "isPrototypeOf", "propertyIsEnumerable", "__proto__", "__defineGetter__",
    "__defineSetter__", "__lookupGetter__", "__lookupSetter__"
  }

  /** The test `p.inventory[data.weapon]` as the server evaluates it: an
      object literal also answers every prototype member. */
  predicate OwnsAsWritten(inventory: map<string, bool>, key: string) {
    Owns(inventory, key) || key in PrototypeMembers
  }

  /** The two tests agree on every weapon name of the table, but the test as
      written also accepts "constructor", which is no weapon at all. */
  lemma PrototypeNameAccepted()
    ensures OwnsAsWritten(FullInventory, "constructor")
    ensures !Owns(FullInventory, "constructor") && "constructor" !in Catalog
    ensures forall key :: key in Catalog ==> (OwnsAsWritten(FullInventory, key) <==> Owns(FullInventory, key))
  {
  }
}
