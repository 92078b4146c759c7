/**
 * The server's tunable constants and its enemy catalog, as the server's
 * configuration file defines them. The UI, visual and control blocks of that
 * file are client-only and are not modelled.
 */
module Config {
  import opened Wrappers

  // World
  const WORLD_SIZE: real := 4000.0

  // Player
  const PLAYER_SIZE: real := 20.0
  const PLAYER_SPEED: real := 3.0
  const PLAYER_MAX_HP: int := 100
  const RESPAWN_COINS_DROP: real := 0.5

  // Melee attack
  const MELEE_COOLDOWN: int := 300
  const MELEE_RANGE: real := 60.0
  const MELEE_DAMAGE: int := 25

  // Ranged attack
  const RANGED_COOLDOWN: int := 700
  const RANGED_DAMAGE: int := 60
  const BULLET_SPEED: real := 8.0
  const BULLET_LIFE: int := 120

  // Enemies
  const ENEMY_MIN_COUNT: nat := 10
  const ENEMY_MAX_COUNT: nat := 15
  const ENEMY_ATTACK_COOLDOWN: int := 1000

  // Coins
  const COIN_DROP_TIMEOUT: int := 30000
  const COIN_PICKUP_RANGE: real := 25.0

  // Bullets
  const ENEMY_BULLET_SPEED: real := 3.0
  const BULLET_COLLISION_RANGE: real := 20.0

  /** The five entries of the enemy catalog, in catalog order. */
  datatype EnemyKind = Basic | Fast | Shooter | Tank | ShooterRunner

  const CATALOG: seq<EnemyKind> := [Basic, Fast, Shooter, Tank, ShooterRunner]

  /** The `type` string each template carries. */
  function TypeName(k: EnemyKind): string {
    match k
    case Basic => "basic"
    case Fast => "fast"
    case Shooter => "shooter"
    case Tank => "tank"
    case ShooterRunner => "shooter_runner"
  }

  function TemplateHp(k: EnemyKind): int {
    match k
    case Basic => 40
    case Fast => 30
    case Shooter => 25
    case Tank => 80
    case ShooterRunner => 25
  }

  function Speed(k: EnemyKind): real {
    match k
    case Basic => 1.2
    case Fast => 2.5
    case Shooter => 0.8
    case Tank => 0.6
    case ShooterRunner => 4.5
  }

  function Size(k: EnemyKind): real {
    match k
    case Basic => 18.0
    case Fast => 16.0
    case Shooter => 18.0
    case Tank => 24.0
    case ShooterRunner => 18.0
  }

  function Damage(k: EnemyKind): int {
    match k
    case Basic => 12
    case Fast => 8
    case Shooter => 15
    case Tank => 20
    case ShooterRunner => 10
  }

  /** `shootCooldown`; None where the template has no such field. */
  function ShootCooldown(k: EnemyKind): Option<int> {
    match k
    case Shooter => Some(1500)
    case ShooterRunner => Some(300)
    case _ => None
  }

  /** `shootRange`; None where the template has no such field. */
  function ShootRange(k: EnemyKind): Option<real> {
    match k
    case Shooter => Some(300.0)
    case ShooterRunner => Some(300.0)
    case _ => None
  }

  /** `fleeDistance`; only the shooter_runner template has one. */
  function FleeDistance(k: EnemyKind): Option<real> {
    match k
    case ShooterRunner => Some(100.0)
    case _ => None
  }

  function DropChance(k: EnemyKind): real {
    match k
    case Basic => 0.25
    case Fast => 0.2
    case Shooter => 0.3
    case Tank => 0.4
    case ShooterRunner => 0.95
  }

  /** The first catalog entry whose `type` is `name` (the catalog's `find`). */
  function FindTemplate(name: string): (r: Option<EnemyKind>)
    ensures r.Some? ==> TypeName(r.value) == name
    ensures r.None? ==> forall k: EnemyKind :: TypeName(k) != name
  {
    if name == "basic" then Some(Basic)
    else if name == "fast" then Some(Fast)
    else if name == "shooter" then Some(Shooter)
    else if name == "tank" then Some(Tank)
    else if name == "shooter_runner" then Some(ShooterRunner)
    else None
  }

  /** Looking a template up by its own type name finds that template. */
  lemma FindTemplateOfTypeName(k: EnemyKind)
    ensures FindTemplate(TypeName(k)) == Some(k)
  {
  }
}
