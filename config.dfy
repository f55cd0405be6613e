/** The shapes of the account configuration the bot reads (lakat/config.py).
    Loading and validating the document is not part of this model; these
    values are taken as given. */
module Config {

  /** One upgrade target: a building name and the level to reach. The order
      of targets in a list is their priority. */
  datatype Building = Building(name: string, level: int)

  /** The `upgrades` list of one habitat kind (the source's Castle, Fortress
      and City records all have exactly this shape). */
  datatype UpgradePlan = UpgradePlan(upgrades: seq<Building>)

  datatype AccountConfig = AccountConfig(
    email: string,
    password: string,
    world: string,
    missions: bool,
    silverBarterThreshold: int,
    castle: UpgradePlan,
    fortress: UpgradePlan,
    city: UpgradePlan)
}
