/**
 * The records the managers keep in their tables, and the records their
 * operations hand to each other. JavaScript objects shared by reference are
 * values here: a table owns each record and an operation that changes one
 * writes the new record back under its id.
 */
module Entities {
  import opened Wrappers
  import opened Config

  /** A socket id. */
  type PlayerId = string
  type EnemyId = nat
  type BulletId = nat
  type CoinId = nat

  /**
   * A bullet's `ownerId`: the shooting player's socket id, or the shooting
   * enemy's numeric id.
   */
  datatype Ref = PlayerRef(pid: PlayerId) | EnemyRef(eid: EnemyId)

  /** JavaScript truthiness of an id: the empty string and 0 are falsy. */
  predicate Truthy(r: Ref) {
    match r
    case PlayerRef(s) => s != ""
    case EnemyRef(n) => n != 0
  }

  datatype Player = Player(
    id: PlayerId,
    name: string,
    x: real,
    y: real,
    hp: int,
    maxHp: int,
    coins: nat,
    lastMeleeAttack: int,
    lastRangedAttack: int)

  datatype Enemy = Enemy(
    id: EnemyId,
    kind: EnemyKind,
    x: real,
    y: real,
    hp: int,
    maxHp: int,
    lastHit: int,
    lastShot: int)

  datatype Bullet = Bullet(
    id: BulletId,
    x: real,
    y: real,
    vx: real,
    vy: real,
    damage: int,
    fromEnemy: bool,
    ownerId: Ref,
    life: int,
    createdAt: int)

  /** The argument of `createBullet`; `fromEnemy` and `life` may be left out. */
  datatype BulletSpec = BulletSpec(
    x: real,
    y: real,
    vx: real,
    vy: real,
    damage: int,
    fromEnemy: Option<bool>,
    ownerId: Ref,
    life: Option<int>)

  datatype Coin = Coin(id: CoinId, x: real, y: real, value: int)

  datatype DroppedCoin = DroppedCoin(id: CoinId, x: real, y: real, value: int, timeout: int)

  /** What an enemy's contact hit reports when it kills: `{killedPlayer, killerName}`. */
  datatype Kill = Kill(victim: PlayerId, killerName: string)

  /** A bullet's player kill: `{player, killerName, shooterId}`. */
  datatype PlayerKill = PlayerKill(victim: PlayerId, killerName: string, shooterId: Option<Ref>)

  /** A bullet's enemy kill: `{enemyId, shooterId}`. */
  datatype EnemyKill = EnemyKill(enemyId: EnemyId, shooterId: Ref)

  /** A melee kill of a player: `{player, killer}`. */
  datatype MeleeKill = MeleeKill(victim: PlayerId, killer: string)

  /** A request for `dropCoinFromEnemy(x, y, type)`. */
  datatype DropRequest = DropRequest(x: real, y: real, enemyType: string)
}
