# Arena server: the tick simulation in Dafny

The system is a multiplayer browser arena. Players join, walk around a square world 4000 units wide, hit nearby enemies and players in melee, fire bullets, collect coins, and die and respawn. The server is authoritative: it owns four managers, for players, enemies, bullets and coins. Sixty times a second it runs `GameLogic.update()` and broadcasts the whole state. Between ticks it answers the socket messages `join`, `move`, `meleeAttack`, `rangedAttack` and `disconnect`.

This project models that server core, and the client's pure helpers from `utils.js`, in two layers.

- **Rule modules** hold the rules as functions on values: `EnemyRules`, `PlayerRules`, `BulletRules`, `CoinRules` and `TickRules`, one per manager plus the game loop. Lemmas about them state what the game promises:
  - enemies and players stay inside their bounds;
  - the closest target really is the closest;
  - a bullet hits at most one player and never its owner or a dead player;
  - pickup conserves coins;
  - every reported kill is a dead player, and every victim is told exactly once;
  - a tick, and every socket handler, preserves a world invariant, so every reachable world satisfies it.
- **Module `Server`** holds the managers as classes. Each has the JavaScript fields (`players`, `enemies`, `bullets`, `coins`, `droppedCoins`, the id counters, `lastCoinSpawn`) and methods that update them in place with the source's loops. Every method is proved to leave exactly the state the rule function computes. The five classes share one module because the managers call each other in a cycle: the enemy manager creates bullets and drops coins, and the bullet manager damages enemies.

The other modules:

- `GameUtils` models `validatePlayerName`, `clampHP`, the viewport and camera conversions, `formatTime`, `clampToWorld` and `getMovementDirection`.
- `Config` holds the constants of `gameConfig.js` and the enemy catalog.
- `Tables` models a JavaScript `Map`: a sequence of keys in insertion order together with a map, so iteration order is part of the model.
- `Random` models `Math.random()`: an object holding an unknown stream of draws in `[0, 1)` and a cursor. Every contract holds for every stream.
- `Date.now()` is a parameter `now`.
- The unit vector `(dx / dist, dy / dist)` that enemies aim and step along is a parameter `dir`. Square roots are avoided by comparing squared distances with squared ranges.

`TickRules.Step` is the server's reaction to one input: a socket message, a respawn timer firing, or the tick interval. `TickRules.Run` threads a sequence of inputs. `TickRules.ReachableInvariant` proves that every world reachable from `new GameLogic(io)` satisfies the invariant. `Server.GameLogic.Step` is the imperative server, proved to make the same step on its objects.

The model follows the code, including these behaviours a reader might not expect:

- `addPlayer` replaces a player already registered under the same socket id.
- `movePlayer` applies no diagonal scaling.
- `rangedAttack` does not normalise the direction it is sent.
- The coin manager's `update` does not purge expired dropped coins; only `checkPickup` removes them.
- The enemy update stops at the first player an enemy kills. It then also skips the respawn of missing enemies in that tick.
- A player's bullet that hits an enemy is still checked against the players in the same turn. It may hit one of each.
- A `shooter_runner` enemy passes neither the `'shooter'` test nor the `'runner'` test, so it never fires and never flees.
- Enemies at 0 hp stay in the table until their next turn, and melee and bullets can "kill" them again.

## Model

| member | source | states |
|---|---|---|
| Config.FindTemplate | project/server/gameConfig.js:35-41 | Finding a template by type name yields a catalog entry carrying exactly that name; no entry carries the name exactly when the result is None. |
| Config.FindTemplateOfTypeName | project/server/gameConfig.js:35-41 | Each of the five templates is found by its own type name; the catalog's type names are distinct. |
| Geometry.Dist2 | project/server/modules/playerManager.js:112-114 | The squared distance used for every range test is non-negative. |
| Geometry.Clamp | project/server/modules/playerManager.js:32-37 | `Math.max(lo, Math.min(hi, v))` with `lo <= hi` lies in `[lo, hi]` and is `v` when `v` already does. |
| Random.Rng.constructor | project/server/modules/enemyManager.js:17 | A fresh draw stream starts at position 0. |
| Random.Rng.Next | project/server/modules/enemyManager.js:17 | One `Math.random()` returns the draw at the cursor and advances the cursor by one. |
| Random.SpawnCoord | project/server/modules/playerManager.js:12-13 | `Math.random() * span + low` lies in `[low, low + span)`. |
| GameUtils.LeadingSpace | project/client/js/utils.js:3 | The count of leading white space of a name: that prefix is all white space, and the next character is not. |
| GameUtils.TrailingSpace | project/client/js/utils.js:3 | The same for the trailing white space. |
| GameUtils.Trim | project/client/js/utils.js:3 | `trim()` yields an empty string or one that starts and ends with a non-space character. |
| GameUtils.TrimIsInfix | project/client/js/utils.js:3 | `trim()` is a contiguous part of the name, with only white space cut from either end. |
| GameUtils.TrimEmptyIffAllSpace | project/client/js/utils.js:3 | A name trims to the empty string exactly when it is all white space. |
| GameUtils.Utf16Length | project/client/js/utils.js:6 | `length` counts UTF-16 code units: at least one and at most two per character, and exactly one per character when no character lies above U+FFFF. |
| GameUtils.ValidatePlayerName | project/client/js/utils.js:2-10 | The empty-name error happens exactly for all-blank names. The too-long error happens exactly when the trimmed name is more than 15 UTF-16 code units long. Otherwise the result is valid and carries the trimmed name, at least one character and 1 to 15 code units long. |
| GameUtils.AstralNameTooLong | project/client/js/utils.js:6-8 | Eight emoji are eight characters but sixteen code units, so such a name is refused as too long. |
| GameUtils.ClampHP | project/client/js/utils.js:12-14 | The result lies in `[0, maxHp]`: it is `hp` when `hp` is in range, 0 below the range and `maxHp` above it. |
| GameUtils.WorldToScreen | project/client/js/utils.js:23-28 | Converting back to world coordinates gives the original point. |
| GameUtils.ScreenWorldRoundTrip | project/client/js/utils.js:30-35 | Screen to world and back again gives the original screen point. |
| GameUtils.ScreenToWorld | project/client/js/utils.js:30-35 | The world point is the one whose offset from the camera is the screen point. |
| GameUtils.IsInViewport | project/client/js/utils.js:16-21 | With a positive margin every point drawn on the canvas is in the viewport, and a point in the viewport lies strictly within `margin` of the canvas on each axis. |
| GameUtils.ViewportWidens | project/client/js/utils.js:16-21 | A wider margin keeps every point a narrower one accepts. |
| GameUtils.ViewportFollowsCamera | project/client/js/utils.js:16-21 | Moving the camera and the point by the same offset does not change the answer. |
| GameUtils.NatToString | project/client/js/utils.js:45 | `toString()` of a whole number is a non-empty string of decimal digits. |
| GameUtils.ValueOfNatToString | project/client/js/utils.js:45 | Reading the printed number back gives the number. |
| GameUtils.ValueOfZeroPrefixed | project/client/js/utils.js:45 | Padding with `'0'` does not change the value that is read back. |
| GameUtils.PadStart2 | project/client/js/utils.js:45 | `padStart(2, '0')` is at least two characters long and leaves a string of two or more characters unchanged. |
| GameUtils.JsRem | project/client/js/utils.js:44 | JavaScript `%` with a positive divisor lies strictly between `-b` and `b`, and is Euclidean `%` for a non-negative dividend. |
| GameUtils.FormatTimeFields | project/client/js/utils.js:41-46 | For a non-negative duration the text is minutes, a colon and exactly two digits of seconds. Read back, the seconds field is below 60, and 60 times the minutes plus the seconds gives the whole seconds of the duration. |
| GameUtils.FormatTime | project/client/js/utils.js:41-46 | The text is at least five characters long, for every duration. |
| GameUtils.ClampToWorld | project/client/js/utils.js:52-57 | A non-negative world size yields a point inside `[0, worldSize]` on both axes; a point already inside is unchanged. |
| GameUtils.GetMovementDirection | project/client/js/utils.js:59-86 | `dy` is 1 when the down key is held, else -1 when the up key is held, else 0; `dx` likewise for right and left. The direction is null exactly when neither moves. Otherwise it follows `dx` when `dx` is non-zero, and `dy` when only `dy` is. |
| EnemyRules.KindOfRoll | project/server/modules/enemyManager.js:17 | A template index drawn from `[0, 1)` always picks one of the five catalog entries. |
| EnemyRules.SpawnedEnemy | project/server/modules/enemyManager.js:19-28 | A spawned enemy has its id and drawn template, full hp equal to `maxHp`, both timers at 0, and a position in `[200, WORLD_SIZE - 200)`. |
| EnemyRules.Spawn | project/server/modules/enemyManager.js:16-29 | `spawnEnemy` appends the enemy under `nextId` and increments the counter. It uses three draws, keeps every id below the counter and keeps enemies in bounds. |
| EnemyRules.SpawnMany | project/server/modules/enemyManager.js:10-14 | `n` spawns add exactly `n` entries under fresh ids at least `nextId`. The old entries and their order stay, the counter is `nextId + n`, and `3n` draws are used. |
| EnemyRules.TakeDamage | project/server/modules/enemyManager.js:114-121 | An unknown id changes nothing and reports false. A known one loses `damage` hp, and the result is true exactly when its hp is then 0 or below. |
| EnemyRules.ClosestFrom | project/server/modules/enemyManager.js:31-42 | The scan keeps the best-so-far or replaces it with a registered living player. |
| EnemyRules.ClosestPlayer | project/server/modules/enemyManager.js:31-42 | `findClosestPlayer` returns a registered living player or null. |
| EnemyRules.ClosestFromNearest | project/server/modules/enemyManager.js:33-40 | By induction over the scan: the player kept is the first living one at the least distance among all scanned. |
| EnemyRules.ScanAll | project/server/modules/enemyManager.js:33-40 | The full scan from null satisfies that description over all players in iteration order. |
| EnemyRules.ClosestPlayerNoneIffAllDead | project/server/modules/enemyManager.js:31-42 | The result is null exactly when no registered player is alive. |
| EnemyRules.ClosestPlayerIsNearest | project/server/modules/enemyManager.js:31-42 | The player chosen is no farther from the enemy than any living player. |
| EnemyRules.ClosestPlayerIsFirst | project/server/modules/enemyManager.js:36 | Ties go to iteration order: every living player before the chosen one is strictly farther. |
| EnemyRules.MeleeRange | project/server/modules/enemyManager.js:44-46 | `getMeleeRange` is positive for every template. |
| EnemyRules.Fires | project/server/modules/enemyManager.js:66 | An enemy fires exactly when it is a plain `shooter`, its target is closer than 300 and more than 1500 ms have passed since its last shot. |
| EnemyRules.Flees | project/server/modules/enemyManager.js:83 | No enemy ever flees: no template has the type `runner`. |
| EnemyRules.Moved | project/server/modules/enemyManager.js:79-96 | After the step and the clamp the enemy is inside `[50, WORLD_SIZE - 50]` on both axes, and only its position changed. An enemy in bounds whose target is within melee range does not move. |
| EnemyRules.Contacts | project/server/modules/enemyManager.js:98 | A contact hit needs the target closer than the largest melee range, 27, and more than `ATTACK_COOLDOWN` since the enemy's last hit. |
| EnemyRules.OwnTurn | project/server/modules/enemyManager.js:51-104 | One iteration keeps both tables valid and the players' keys; every other enemy keeps its record; the enemy's own key leaves the order only when its record is removed; at most one shot and one drop are requested. |
| EnemyRules.OwnTurnCases | project/server/modules/enemyManager.js:52-59 | An enemy at 0 hp or below is deleted and one coin drop is requested at its position with its type, and nothing else happens. A living enemy stays, requests no drop, and does nothing when no player is alive. A kill comes only from a living enemy, names a player now at 0 hp or below and is credited to `<type> enemy`. |
| EnemyRules.Engage | project/server/modules/enemyManager.js:61-104 | A living enemy's turn requests no coin drop and at most one bullet; what it does is stated by `EnemyRules.EngageEffect` and `EnemyRules.ContactCooldown`. |
| EnemyRules.EngageEffect | project/server/modules/enemyManager.js:61-104 | A living enemy's turn against its target: one shot along `dir` exactly when `Fires` holds, with `lastShot` set to `now`; it stays in bounds and only its position and timers change; no other enemy changes. With `Contacts`, `lastHit` becomes `now` and exactly the target loses the enemy's damage; otherwise no player changes. A kill, of the target and named `<type> enemy`, is reported exactly when the hit takes the target to 0 hp or below. |
| EnemyRules.ContactCooldown | project/server/modules/enemyManager.js:98-100 | After a contact hit the enemy cannot strike again, at any distance, until more than `ATTACK_COOLDOWN` has passed. |
| EnemyRules.EnemyTurn | project/server/modules/enemyManager.js:51-104 | A turn within the pass has the same frame, and its shots and drops extend those of the earlier turns by at most one each. |
| EnemyRules.RunEnemies | project/server/modules/enemyManager.js:51-105 | The pass over all enemies keeps the tables well formed and the players' keys. |
| EnemyRules.RunStopsAtKill | project/server/modules/enemyManager.js:51-104 | The pass reports a kill exactly when some turn kills. It then ends right after that turn, and the kill is credited to the type of the enemy whose turn it was. |
| EnemyRules.RunLeavesRest | project/server/modules/enemyManager.js:102 | The enemies after the killing turn keep their records: they neither move, shoot nor strike in that tick. |
| EnemyRules.RunKeepsBounds | project/server/modules/enemyManager.js:95-96 | Every enemy stays within `[50, WORLD_SIZE - 50]` over a whole pass. |
| EnemyRules.TurnDamagesOnlyTarget | project/server/modules/enemyManager.js:58-104 | A turn changes a player only by contact damage to that enemy's closest living player. The victim loses exactly the enemy's damage; everyone else is untouched. |
| EnemyRules.RunOnlyDamagesPlayers | project/server/modules/enemyManager.js:98-104 | Over a pass, players only lose hp; their ids, names, positions and coins stay. |
| EnemyRules.RunKillIsDead | project/server/modules/enemyManager.js:98-103 | A reported kill names a registered player at 0 hp or below, with the killer named `<type> enemy`. |
| EnemyRules.TurnShrinksAndShootsHarmlessly | project/server/modules/enemyManager.js:52-77 | A turn only removes enemies, and its shot does the shooter's non-negative damage. |
| EnemyRules.RunShrinksAndShootsHarmlessly | project/server/modules/enemyManager.js:51-105 | The same over a whole pass. |
| EnemyRules.ShooterRunnerNeitherShootsNorFlees | project/server/modules/enemyManager.js:66-87 | An enemy of type `shooter_runner` never passes the shooting test or the fleeing test. |
| PlayerRules.DisplayName | project/server/modules/playerManager.js:11 | `data.name \|\| 'Anonymous'` is the given name when non-empty, otherwise "Anonymous", and never empty. |
| PlayerRules.NewPlayer | project/server/modules/playerManager.js:9-19 | A new player has the socket id, the display name, full hp equal to `maxHp`, no coins, both cooldowns at 0, and a position in `[100, WORLD_SIZE - 100)`. |
| PlayerRules.Moved | project/server/modules/playerManager.js:32-40 | A step moves each axis by `d * SPEED` when that stays inside `[SIZE, WORLD_SIZE - SIZE]` and clamps otherwise; only the position changes. |
| PlayerRules.Move | project/server/modules/playerManager.js:28-41 | An unknown or dead player leaves the table as it was. Otherwise exactly that player is moved; keys, order and bounds are kept. |
| PlayerRules.MeleeEnemies | project/server/modules/playerManager.js:53-61 | The enemy loop keeps the enemy table's keys and order. |
| PlayerRules.MeleeEnemiesEffect | project/server/modules/playerManager.js:53-61 | Every enemy in range loses `MELEE.DAMAGE` exactly once, and the others are unchanged. Exactly those whose hp falls to 0 or below are reported, and none twice. |
| PlayerRules.MeleeEnemiesOrder | project/server/modules/playerManager.js:53-61 | The kills are appended after the earlier reports in the table's iteration order: they are exactly `MeleeKillsIn`, the enemies in range whose hp falls to 0 or below, in the order of the keys. |
| PlayerRules.MeleePlayers | project/server/modules/playerManager.js:63-75 | The player loop keeps the players' keys and order. |
| PlayerRules.MeleePlayersHits | project/server/modules/playerManager.js:63-66 | Every other living player in range loses `MELEE.DAMAGE` exactly once; the attacker, dead players and those out of range are untouched. |
| PlayerRules.MeleePlayersKills | project/server/modules/playerManager.js:67-71 | Exactly the struck players whose hp falls to 0 or below are reported, after the earlier reports, with the attacker's name. |
| PlayerRules.MeleePlayersOrder | project/server/modules/playerManager.js:63-73 | The reports are appended after the earlier ones in the table's iteration order: they are exactly `StruckDownIn`, the struck players whose hp falls to 0 or below, in the order of the keys. |
| PlayerRules.StruckDownOnce | project/server/modules/playerManager.js:63-73 | Over distinct keys, every report names a player of the table's order and no player is reported twice. |
| PlayerRules.MeleePlayersBounty | project/server/modules/playerManager.js:72 | The coins gained are exactly a quarter, rounded down, of each reported victim's coins. |
| PlayerRules.MeleeAttack | project/server/modules/playerManager.js:43-78 | The attack is refused exactly when the attacker is unknown, dead, or within `MELEE.COOLDOWN` of its last attack. Otherwise both tables keep their keys. |
| PlayerRules.MeleeAttackEffect | project/server/modules/playerManager.js:43-78 | A performed attack sets `lastMeleeAttack` to `now`. It gives the attacker one coin per killed enemy plus the bounty, and it hits enemies and other players as the two loop lemmas state. |
| PlayerRules.MeleeAttackFrame | project/server/modules/playerManager.js:43-78 | Nobody moves in a melee attack, and every reported victim is registered. |
| PlayerRules.RangedShot | project/server/modules/playerManager.js:88-96 | The requested bullet starts at the player with velocity `8 * (vx, vy)`, `RANGED.DAMAGE`, `fromEnemy` false and the player as owner. |
| PlayerRules.RangedAttack | project/server/modules/playerManager.js:80-97 | The shot is refused exactly when the shooter is unknown, dead, or within `RANGED.COOLDOWN`. Otherwise only its `lastRangedAttack` becomes `now`, and that shot is requested. |
| PlayerRules.CanAttack | project/server/modules/playerManager.js:44-48 | The gate of `meleeAttack`, and of `rangedAttack` at lines 82-85, as a definition: a registered living player whose cooldown has run out. What the gate means over time is stated by `PlayerRules.MeleeCooldown`, `PlayerRules.RangedCooldown` and `PlayerRules.CooldownPasses`. |
| PlayerRules.MeleeCooldown | project/server/modules/playerManager.js:45-50 | After a performed melee attack at `now`, a further one is possible exactly when at least `MELEE.COOLDOWN` has passed; the ranged cooldown is untouched. |
| PlayerRules.RangedCooldown | project/server/modules/playerManager.js:82-87 | After a performed shot at `now`, a further one is possible exactly when at least `RANGED.COOLDOWN` has passed; the melee cooldown is untouched. |
| PlayerRules.CooldownPasses | project/server/modules/playerManager.js:44-48 | The gate `CanAttack`: once an attack is possible it stays possible as time passes, for melee and ranged alike. |
| PlayerRules.HalfFloor | project/server/modules/playerManager.js:107 | `Math.floor(coins * 0.5)` on a whole number of coins is integer halving. |
| PlayerRules.Respawned | project/server/modules/playerManager.js:103-108 | A respawned player has full hp, half its coins rounded down, and a fresh position in `[100, WORLD_SIZE - 100)`; its name, id and cooldowns are unchanged. |
| PlayerRules.Respawn | project/server/modules/playerManager.js:102-109 | When the timer fires, a registered player respawns; for an absent id the table is unchanged. Keys and bounds are kept. |
| BulletRules.NewBullet | project/server/modules/bulletManager.js:11-22 | The stored bullet copies the request. `fromEnemy` is true only when asked, `life` defaults to `BULLET_LIFE` when missing or 0, and `createdAt` is `now`. |
| BulletRules.Create | project/server/modules/bulletManager.js:9-23 | `createBullet` appends the bullet under `nextId` and increments the counter. |
| BulletRules.CreateAll | project/server/modules/bulletManager.js:9-23 | A sequence of `createBullet` calls adds one entry per request under fresh ids and keeps the old bullets and their order. |
| BulletRules.CreateAllAppend | project/server/modules/bulletManager.js:9-23 | Creating the requests of `s1` and then `s2` is creating those of `s1 + s2`. |
| BulletRules.FlownFields | project/server/modules/bulletManager.js:29-31 | After `n` turns of flight the bullet is `n` velocities further and has `n` lives fewer. |
| BulletRules.Expired | project/server/modules/bulletManager.js:33-38 | A bullet with no life left is removed; inside the world only its life decides; a bullet kept is inside `[0, WORLD_SIZE]` on both axes. |
| BulletRules.BulletLifetime | project/server/modules/bulletManager.js:29-38 | A bullet with life `L` has expired after `L` steps of flight. A motionless one inside the world has expired exactly from step `L` on. |
| BulletRules.FirstPlayerHit | project/server/modules/bulletManager.js:41-43 | It finds nothing exactly when no player of the scan is a target. Otherwise it finds the first target in iteration order. |
| BulletRules.FirstEnemyHit | project/server/modules/bulletManager.js:57-58 | The same for enemies; dead enemies still in the table count. |
| BulletRules.FirstPlayerHitAt | project/server/modules/bulletManager.js:71-73 | A target with no target before it is the one the scan finds. |
| BulletRules.FirstEnemyHitAt | project/server/modules/bulletManager.js:57-58 | The same for enemies. |
| BulletRules.ShooterName | project/server/modules/bulletManager.js:77-80 | The killer's name is the shooter's name when the shooter is registered with a non-empty name, otherwise "unknown player". It is never empty. |
| BulletRules.ShooterNameKeeps | project/server/modules/bulletManager.js:74-77 | Taking hp from a player does not change the shooter name found afterwards. |
| BulletRules.PlayerHitBy | project/server/modules/bulletManager.js:41-43 | The player struck is a living target in range that is not the skipped owner. |
| BulletRules.EnemyHitBy | project/server/modules/bulletManager.js:57-58 | The enemy struck is within collision range. |
| BulletRules.StrikePlayer | project/server/modules/bulletManager.js:41-55 | The player part of a turn leaves the enemies alone and either keeps or deletes the bullet. |
| BulletRules.StrikePlayerEffect | project/server/modules/bulletManager.js:41-55 | With no target nothing changes. Otherwise exactly the victim loses the bullet's damage and the bullet is deleted, and a kill is reported exactly when the victim's hp is then 0 or below. |
| BulletRules.StrikeEnemy | project/server/modules/bulletManager.js:57-69 | The enemy part leaves the players alone and either keeps or deletes the bullet. |
| BulletRules.StrikeEnemyEffect | project/server/modules/bulletManager.js:57-69 | With no enemy in range nothing changes. Otherwise the first enemy in range takes the damage through `takeDamage`, the bullet is deleted, and a kill is reported with the bullet's owner exactly when `takeDamage` says so. |
| BulletRules.TurnVictim | project/server/modules/bulletManager.js:40-86 | The player a turn strikes, if any, is registered and neither dead nor the owner of a player bullet. |
| BulletRules.BulletTurn | project/server/modules/bulletManager.js:28-87 | A turn removes at most its own bullet and leaves every other bullet unchanged. |
| BulletRules.TurnLifecycle | project/server/modules/bulletManager.js:28-87 | An expired bullet is deleted and nothing else changes. Otherwise the bullet survives the turn exactly when it hits neither an enemy nor a player, and is then stored advanced by one step; when it hits, it is deleted. An enemy bullet never touches the enemies. |
| BulletRules.TurnVictimEffect | project/server/modules/bulletManager.js:40-86 | A turn changes the players only through its victim, by exactly the bullet's damage, and adds at most one player kill, of that victim. |
| BulletRules.RunBullets | project/server/modules/bulletManager.js:25-91 | The loop over the bullets keeps every table well formed. |
| BulletRules.RunSurvivors | project/server/modules/bulletManager.js:25-91 | Over a pass, every bullet still present is its advanced self and not expired, one whose advanced self expired is gone, and a bullet the pass does not visit is unchanged. |
| BulletRules.PassesFly | project/server/modules/bulletManager.js:25-38 | After `n` passes a bullet still present is the original flown `n` steps, so a bullet created with life `L` is gone after `L` passes. |
| BulletRules.TurnKillsAreDead | project/server/modules/bulletManager.js:46-52 | After a turn every player kill reported so far names a player at 0 hp or below. |
| BulletRules.RunKillsAreDead | project/server/modules/bulletManager.js:25-91 | At the end of the pass every reported player kill names a player at 0 hp or below, and one without a shooter is named "enemy bullet". |
| BulletRules.TurnKeepsKeys | project/server/modules/bulletManager.js:28-87 | A turn keeps the keys of the players and the enemies. |
| BulletRules.RunKeepsKeys | project/server/modules/bulletManager.js:25-91 | A pass keeps the keys of the players and the enemies. |
| BulletRules.TurnSparesOwnerAndDead | project/server/modules/bulletManager.js:42-72 | A turn never hurts a dead player or the owner of a player bullet. It changes at most one player, by exactly the bullet's damage. |
| BulletRules.TurnOnlyDamages | project/server/modules/bulletManager.js:28-87 | With non-negative damage, a turn only lowers the hp of living players. |
| BulletRules.RunOnlyDamagesPlayers | project/server/modules/bulletManager.js:25-91 | Over a pass the dead lose nothing, and the living lose only hp. |
| BulletRules.CreateAllHarmless | project/server/modules/bulletManager.js:9-23 | Bullets created from requests of non-negative damage keep every bullet's damage non-negative. |
| BulletRules.TurnKeepsBulletDamage | project/server/modules/bulletManager.js:28-87 | A turn only removes bullets and keeps the damage of the rest. |
| BulletRules.TurnKeepsEnemyBounds | project/server/modules/bulletManager.js:57-69 | A turn moves no enemy. |
| BulletRules.RunKeepsBulletsAndEnemies | project/server/modules/bulletManager.js:25-91 | A pass only removes bullets, keeps their damage and moves no enemy. |
| CoinRules.SpawnedCoin | project/server/modules/coinManager.js:13-18 | An ambient coin is worth 1 and lies in `[100, WORLD_SIZE - 100)`. |
| CoinRules.SpawnCoin | project/server/modules/coinManager.js:11-19 | `spawnCoin` appends the coin under `nextId`, increments the counter and uses two draws. |
| CoinRules.Tick | project/server/modules/coinManager.js:69-75 | When more than 6000 ms have passed and fewer than 10 coins lie about, one coin is added and the spawn time becomes `now`; otherwise nothing changes. |
| CoinRules.TickKeepsAmbientBound | project/server/modules/coinManager.js:71 | Spawning never brings more than 10 ambient coins into the world. |
| CoinRules.Jitter | project/server/modules/coinManager.js:27-28 | The random offset lies in `[-spread/2, spread/2)`. |
| CoinRules.JitterOffset | project/server/modules/coinManager.js:27-28 | The offset is `(Math.random() - 0.5) * spread`. |
| CoinRules.DropChanceOf | project/server/modules/coinManager.js:22 | The chance is the catalog entry's drop chance for a known type and 0 for an unknown one, always in `[0, 1)`. |
| CoinRules.DroppedNear | project/server/modules/coinManager.js:25-31 | A dropped coin is worth 1, times out `DROP_TIMEOUT` after `now`, and lies within half the spread of the drop point. |
| CoinRules.EnemyDrop | project/server/modules/coinManager.js:21-33 | A draw below the chance drops one coin under the next drop id, using two more draws; a draw at or above it only uses that draw. |
| CoinRules.UnknownTypeNeverDrops | project/server/modules/coinManager.js:22-23 | A type missing from the catalog never drops a coin. |
| CoinRules.EnemyDrops | project/server/modules/coinManager.js:21-33 | The drops of an enemy pass keep every coin already dropped, with its place in the order. |
| CoinRules.EnemyDropsAppend | project/server/modules/coinManager.js:21-33 | The drops of `r1` and then those of `r2` are the drops of `r1 + r2`. |
| CoinRules.PlayerCoinsStep | project/server/modules/coinManager.js:37-46 | The first iteration of the drop loop places its coin from the next two draws, and the rest continue from the next id and position. |
| CoinRules.PlayerDropStep | project/server/modules/coinManager.js:37-46 | The same step on the table of drops. |
| CoinRules.DropCount | project/server/modules/coinManager.js:36 | `Math.floor(coins * 0.5)` is `coins / 2`. |
| CoinRules.PlayerDrops | project/server/modules/coinManager.js:35-47 | A dying player drops exactly half its coins, rounded down, under fresh ids, using two draws each. |
| CoinRules.PlayerDropsKeeps | project/server/modules/coinManager.js:35-47 | Every coin already dropped stays, unchanged and in its place. |
| CoinRules.PlayerDropsNear | project/server/modules/coinManager.js:39-45 | Every coin added takes a fresh id and lies within 50 of the player on each axis, worth 1, timing out `DROP_TIMEOUT` after `now`. |
| CoinRules.PlayerCoinsNear | project/server/modules/coinManager.js:37-46 | The i-th coin of the loop takes id `id + i` and lies around the player. |
| CoinRules.PickAmbient | project/server/modules/coinManager.js:50-55 | The ambient loop keeps the table well formed and only raises the count. |
| CoinRules.PickAmbientEffect | project/server/modules/coinManager.js:50-55 | It removes exactly the coins within pickup range, keeps the others as they were, and counts every removed coin once. |
| CoinRules.PickAmbientCount | project/server/modules/coinManager.js:50-55 | The ambient loop counts exactly the coins within pickup range, one each. |
| CoinRules.PickDropped | project/server/modules/coinManager.js:57-66 | The dropped-coin loop keeps the table well formed and only raises the count. |
| CoinRules.PickDroppedKeeps | project/server/modules/coinManager.js:57-66 | It removes exactly the coins that timed out or lie within range, and keeps the rest as they were. |
| CoinRules.PickDroppedCounts | project/server/modules/coinManager.js:57-66 | It never counts more coins than it removes; when none of the coins has timed out, the count is exactly the number removed. |
| CoinRules.PickDroppedExact | project/server/modules/coinManager.js:57-66 | The dropped-coin loop counts exactly the coins within range that have not timed out, one each; a timed-out coin earns nothing even within range. |
| CoinRules.CheckPickup | project/server/modules/coinManager.js:49-67 | Pickup changes only the player's coins, and it never lowers them. |
| CoinRules.PickupCredits | project/server/modules/coinManager.js:49-67 | The player gains one coin per ambient coin in range plus one per dropped coin in range that has not timed out. |
| CoinRules.PickupConservesCoins | project/server/modules/coinManager.js:49-67 | When no dropped coin has timed out, coins are conserved: the player's coins plus those left in both tables equal what there was before. |
| CoinRules.PickupShrinks | project/server/modules/coinManager.js:49-67 | Pickup only removes coins: both tables lose keys and gain none, and the ambient count never grows. |
| TickRules.Initial | project/server/modules/gameLogic.js:7-13 | The starting world has no players and `ENEMIES.MAX_COUNT` enemies, uses three draws per enemy, and satisfies the invariant. |
| TickRules.WithEnemies | project/server/modules/gameLogic.js:7-13 | The world with no players around an enemy table that is in bounds satisfies the invariant and holds exactly those enemies. |
| TickRules.CoinStage | project/server/modules/gameLogic.js:16 | The coin update changes only the ambient coins, their counter and the spawn time. |
| TickRules.EnemyUpdate | project/server/modules/gameLogic.js:18-22 | The enemy update keeps the players' keys and the ambient coins, and reports only a registered victim. |
| TickRules.EnemyUpdateRepopulates | project/server/modules/enemyManager.js:102-111 | The kill reported is the pass's own. Without a kill and with fewer than `MIN_COUNT` enemies left, exactly one enemy is added under the next id and the counter goes up by one; otherwise the table is the one the pass left and the counter stays. |
| TickRules.HandleDeath | project/server/modules/playerManager.js:99-101 | A death sets exactly the victim's hp to 0 and adds half its coins, rounded down, to the dropped coins; only the players and the drops change. |
| TickRules.BulletUpdate | project/server/modules/gameLogic.js:29 | The bullet update changes only players, enemies and bullets, keeps the players' keys, and reports registered victims only. |
| TickRules.Credit | project/server/modules/gameLogic.js:32-34 | A registered shooter gains a quarter, rounded down, of the victim's coins; otherwise nothing changes. |
| TickRules.SettleKills | project/server/modules/gameLogic.js:31-39 | Settling the bullet kills keeps the world well formed and the players' keys. |
| TickRules.SettleUpTo | project/server/modules/gameLogic.js:31-39 | The loop state after the first `n` kills keeps the same frame. |
| TickRules.SettleOne | project/server/modules/gameLogic.js:32-38 | One settled kill keeps the world well formed and the players' keys. |
| TickRules.SettleOneKeeps | project/server/modules/gameLogic.js:32-38 | One settled kill keeps the invariant, leaves its victim at 0 hp or below, keeps the dead dead, and sends a `death` message to the victim alone. |
| TickRules.SettleOneCredit | project/server/modules/gameLogic.js:32-38 | Only a truthy shooter id naming a registered player other than the victim earns the bounty, a quarter of the victim's coins rounded down; every other player but the victim is unchanged, and the victim is at 0 hp. |
| TickRules.SettleKillsKeeps | project/server/modules/gameLogic.js:31-39 | Settling keeps the invariant and keeps the dead dead, and every victim is at 0 hp or below afterwards. |
| TickRules.SettleUpToAll | project/server/modules/gameLogic.js:31-39 | Settling the kills one after another from the front, as the loop does, ends where `SettleKills` ends. |
| TickRules.SettleUpToRest | project/server/modules/gameLogic.js:31-39 | After `n` kills, settling the rest completes `SettleKills`. |
| TickRules.SettleUpToStep | project/server/modules/gameLogic.js:31-39 | One more kill settled from the front leaves the same remainder to settle. |
| TickRules.SettleKillsTellsVictims | project/server/modules/gameLogic.js:37-38 | The `death` messages go to exactly the victims, once per kill, in the order of the kills. |
| TickRules.SettleKillsMessages | project/server/modules/gameLogic.js:31-39 | The messages of the kill loop depend on the kills alone: a shooter who is no longer registered is still told. |
| TickRules.KillMessagesReport | project/server/modules/gameLogic.js:32-38 | The `playerKilled` messages are one per kill with a truthy shooter id, to that shooter, naming the victim and the shooter; the `death` messages name every victim in order. |
| TickRules.EnemyKillEvents | project/server/modules/gameLogic.js:41-46 | There is at most one `enemyKilled` message per enemy kill. |
| TickRules.EnemyKillEvent | project/server/modules/gameLogic.js:42-45 | One kill sends at most one message. |
| TickRules.EnemyKillEventsExact | project/server/modules/gameLogic.js:41-46 | An `enemyKilled` message goes to a player exactly when that player is registered and is the shooter of one of the kills. |
| TickRules.EnemyKillEventsHaveNoDeaths | project/server/modules/gameLogic.js:41-46 | The enemy-kill loop sends no `death` message. |
| TickRules.PickupAll | project/server/modules/gameLogic.js:48-52 | The pickup loop changes only the players and both coin tables, and keeps the players' keys. |
| TickRules.PickupOneKeeps | project/server/modules/gameLogic.js:49-51 | One player's pickup keeps the invariant and only raises that living player's coins. |
| TickRules.PickupAllKeeps | project/server/modules/gameLogic.js:48-52 | Pickup keeps the invariant and touches only the coin counts of living players. |
| TickRules.EnemyPhase | project/server/modules/gameLogic.js:16-27 | The first half of a tick keeps the world well formed and the players' keys. |
| TickRules.EnemyPhaseKeeps | project/server/modules/gameLogic.js:16-27 | It keeps the invariant, and the player it tells of a death is dead. |
| TickRules.EnemyPhaseMessages | project/server/modules/gameLogic.js:24-27 | The first half of a tick sends one `death` message, to the player the enemy pass killed and with the pass's killer name, and none when the pass killed nobody. |
| TickRules.BulletPhase | project/server/modules/gameLogic.js:29-52 | The second half keeps the world well formed and the players' keys. |
| TickRules.BulletPhaseKeeps | project/server/modules/gameLogic.js:29-52 | It keeps the invariant and keeps the dead dead, and every player it tells of a death is dead at its end. |
| TickRules.Tick | project/server/modules/gameLogic.js:15-53 | A tick keeps the world well formed and the players' keys. |
| TickRules.CoinStageKeeps | project/server/modules/coinManager.js:69-75 | The coin update keeps the invariant, including at most 10 ambient coins. |
| TickRules.EnemyUpdateKeeps | project/server/modules/enemyManager.js:48-112 | The enemy update keeps the invariant and keeps the dead dead. |
| TickRules.HandleDeathKeeps | project/server/modules/playerManager.js:99-101 | A death keeps the invariant, keeps the dead dead, and leaves its victim at 0 hp. |
| TickRules.BulletUpdateKeeps | project/server/modules/bulletManager.js:25-91 | The bullet update keeps the invariant and keeps the dead dead. |
| TickRules.TickKeepsInvariant | project/server/modules/gameLogic.js:15-53 | A tick keeps the invariant and the registered players. Every player told of its death during the tick is dead when it ends. |
| TickRules.EnemyKilledAll | project/server/app.js:33-35 | The melee handler sends exactly one `enemyKilled` message per killed enemy, to the attacker. |
| TickRules.EnemyKilledAllHasNoDeaths | project/server/app.js:33-35 | Those messages include no `death` message. |
| TickRules.AsPlayerKills | project/server/app.js:36-39 | Each melee victim becomes, in order, a kill without a shooter with the same victim and killer name. |
| TickRules.HandleMelee | project/server/app.js:30-41 | It is refused exactly when the attacker is unknown, dead or cooling down; a performed attack keeps the world well formed and the players' keys. |
| TickRules.HandleMeleeKeeps | project/server/app.js:30-41 | A melee attack keeps the invariant. Every player it kills is told so once, in order, and is dead afterwards. |
| TickRules.OnJoin | project/server/app.js:21-24 | Joining stores the new player record under the socket id, replacing any earlier one in its place or appending a new key. It uses two draws and changes nothing else. |
| TickRules.OnJoinKeeps | project/server/app.js:21-24 | Joining keeps the invariant, and the new player is registered and alive. |
| TickRules.OnMove | project/server/app.js:26-28 | A move changes only the players, and it keeps their keys. |
| TickRules.OnMoveKeeps | project/server/app.js:26-28 | A move keeps the invariant. |
| TickRules.OnRanged | project/server/app.js:43-45 | A refused shot changes nothing. A performed one changes only the players, the bullets and the bullet counter: a bullet owned by the player, not from an enemy, is appended under the next bullet id. |
| TickRules.OnRangedKeeps | project/server/app.js:43-45 | A ranged attack keeps the invariant; its bullet does non-negative damage. |
| TickRules.OnDisconnect | project/server/app.js:47-50 | A disconnect removes exactly that player and changes nothing else. |
| TickRules.OnDisconnectKeeps | project/server/app.js:47-50 | A disconnect keeps the invariant. |
| TickRules.OnRespawn | project/server/modules/playerManager.js:102-109 | The timer changes only the players and keeps their keys. It uses two draws when the player is registered, none otherwise. |
| TickRules.OnRespawnKeeps | project/server/modules/playerManager.js:102-109 | A respawn keeps the invariant, and a registered player comes back alive. |
| TickRules.State | project/server/modules/gameLogic.js:55-62 | The broadcast lists every table's values, one per entry, in iteration order. |
| TickRules.Step | project/server/app.js:18-56 | Every input keeps the world well formed, and the state is broadcast exactly when the input is the tick. |
| TickRules.StepKeepsInvariant | project/server/app.js:18-56 | Every input keeps the invariant. |
| TickRules.Run | project/server/app.js:18-56 | A run of inputs keeps the world well formed. |
| TickRules.RunKeepsInvariant | project/server/app.js:18-56 | A run of inputs keeps the invariant. |
| TickRules.ReachableInvariant | project/server/app.js:16-56 | Every world reachable from `new GameLogic(io)` satisfies the invariant. Its tables are well formed, ids are below their counters, players and enemies are in bounds, at most 10 ambient coins lie about, and no bullet does negative damage. |
| Server.PlayerManager.constructor | project/server/modules/playerManager.js:4-6 | A fresh manager has no players. |
| Server.PlayerManager.AddPlayer | project/server/modules/playerManager.js:8-22 | It stores and returns the new player record under the socket id, using two draws. |
| Server.PlayerManager.RemovePlayer | project/server/modules/playerManager.js:24-26 | It deletes the entry. |
| Server.PlayerManager.MovePlayer | project/server/modules/playerManager.js:28-41 | The new table is `PlayerRules.Move`. |
| Server.PlayerManager.MeleeAttack | project/server/modules/playerManager.js:43-78 | The two loops running in place leave exactly the tables and results of `PlayerRules.MeleeAttack`; a refusal changes nothing. |
| Server.PlayerManager.MeleeEnemies | project/server/modules/playerManager.js:53-61 | The enemy loop in place gives `PlayerRules.MeleeEnemies`. |
| Server.PlayerManager.MeleePlayers | project/server/modules/playerManager.js:63-75 | The player loop in place gives `PlayerRules.MeleePlayers`. |
| Server.PlayerManager.MeleePlayersIn | project/server/modules/playerManager.js:63-75 | The loop over a snapshot of the keys gives `PlayerRules.MeleePlayers`. |
| Server.PlayerManager.RangedAttack | project/server/modules/playerManager.js:80-97 | A refusal changes nothing. Otherwise the shooter's cooldown is set and `createBullet` receives `PlayerRules.RangedShot`. |
| Server.PlayerManager.HandlePlayerDeath | project/server/modules/playerManager.js:99-101 | Hp becomes 0, and the coin manager's drops are `CoinRules.PlayerDrops` of the dying player. |
| Server.PlayerManager.Respawn | project/server/modules/playerManager.js:102-109 | The timer's effect is `PlayerRules.Respawn`, with two draws only when the player is registered. |
| Server.EnemyManager.constructor | project/server/modules/enemyManager.js:4-8 | Ids start at 1, and `MAX_COUNT` enemies are spawned: `EnemyRules.SpawnMany` from an empty table. |
| Server.EnemyManager.GenerateEnemies | project/server/modules/enemyManager.js:10-14 | The loop of spawns is `EnemyRules.SpawnMany`. |
| Server.EnemyManager.SpawnEnemy | project/server/modules/enemyManager.js:16-29 | It gives `EnemyRules.Spawn`. |
| Server.EnemyManager.FindClosestPlayer | project/server/modules/enemyManager.js:31-42 | The scan with its running minimum returns `EnemyRules.ClosestPlayer`. |
| Server.EnemyManager.Turn | project/server/modules/enemyManager.js:51-104 | One iteration in place, with its `createBullet` and `dropCoinFromEnemy` calls, gives `EnemyRules.OwnTurn`, whose cases `EnemyRules.OwnTurnCases` states, and the drops and bullets of its requests. |
| Server.EnemyManager.Engage | project/server/modules/enemyManager.js:61-104 | The living enemy's shot, step, clamp and contact give `EnemyRules.Engage`, whose effect `EnemyRules.EngageEffect` states. |
| Server.EnemyManager.Update | project/server/modules/enemyManager.js:48-112 | The loop over the enemies, leaving at the first kill, then the top-up spawn, leaves exactly `TickRules.EnemyUpdate`. |
| Server.EnemyManager.RunTurns | project/server/modules/enemyManager.js:51-105 | The loop alone, run in place over the table's order with the bullets and drops created as it goes, leaves the tables and the kill of `EnemyRules.RunEnemies` and the bullets and drops of its requests. |
| Server.EnemyManager.TakeDamage | project/server/modules/enemyManager.js:114-121 | It gives `EnemyRules.TakeDamage`. |
| Server.EnemyManager.RemoveEnemy | project/server/modules/enemyManager.js:123-125 | It deletes the entry and keeps the counter. |
| Server.BulletManager.constructor | project/server/modules/bulletManager.js:4-7 | No bullets; ids start at 1. |
| Server.BulletManager.CreateBullet | project/server/modules/bulletManager.js:9-23 | It gives `BulletRules.Create`. |
| Server.BulletManager.Update | project/server/modules/bulletManager.js:25-91 | The loop over the bullets leaves exactly the tables and kill lists of `BulletRules.RunBullets`. |
| Server.BulletManager.Turn | project/server/modules/bulletManager.js:28-87 | One iteration gives `BulletRules.BulletTurn`. |
| Server.BulletManager.StrikePlayers | project/server/modules/bulletManager.js:71-86 | The players loop in place gives `BulletRules.StrikePlayer`. |
| Server.BulletManager.FirstPlayerIn | project/server/modules/bulletManager.js:41-43 | The scan returns `BulletRules.PlayerHitBy`. |
| Server.BulletManager.StrikeEnemies | project/server/modules/bulletManager.js:57-69 | The enemies loop in place gives `BulletRules.StrikeEnemy`. |
| Server.BulletManager.FirstEnemyIn | project/server/modules/bulletManager.js:57-58 | The scan returns `BulletRules.EnemyHitBy`. |
| Server.CoinManager.constructor | project/server/modules/coinManager.js:4-9 | No coins, both counters at 1, last spawn at 0. |
| Server.CoinManager.SpawnCoin | project/server/modules/coinManager.js:11-19 | It gives `CoinRules.SpawnCoin` and leaves the drops alone. |
| Server.CoinManager.DropCoinFromEnemy | project/server/modules/coinManager.js:21-33 | It gives `CoinRules.EnemyDrop` and leaves the ambient coins alone. |
| Server.CoinManager.DropCoinsFromPlayer | project/server/modules/coinManager.js:35-47 | The drop loop gives `CoinRules.PlayerDrops`. |
| Server.CoinManager.DropAround | project/server/modules/coinManager.js:37-46 | `n` iterations of the drop loop give the `n` coins of `CoinRules.PlayerCoins` around the point. |
| Server.CoinManager.DropOne | project/server/modules/coinManager.js:38-45 | One pass takes exactly two draws and stores the coin under `id`; the rest of the drops then run from `id + 1` and the stream two draws on. |
| Server.CoinManager.CheckPickup | project/server/modules/coinManager.js:49-67 | Both loops in place give `CoinRules.CheckPickup`. |
| Server.CoinManager.PickAmbient | project/server/modules/coinManager.js:50-55 | The ambient loop gives `CoinRules.PickAmbient`. |
| Server.CoinManager.PickDropped | project/server/modules/coinManager.js:57-66 | The dropped-coin loop gives `CoinRules.PickDropped`. |
| Server.CoinManager.Update | project/server/modules/coinManager.js:69-75 | It gives `CoinRules.Tick`. |
| Server.GameLogic.constructor | project/server/modules/gameLogic.js:7-13 | The four managers start in `TickRules.Initial`. |
| Server.GameLogic.Update | project/server/modules/gameLogic.js:15-53 | `update()` on the objects leaves the world, the stream position and the messages of `TickRules.Tick`. |
| Server.GameLogic.EnemyPhase | project/server/modules/gameLogic.js:16-27 | It gives `TickRules.EnemyPhase`. |
| Server.GameLogic.BulletPhase | project/server/modules/gameLogic.js:29-52 | It gives `TickRules.BulletPhase`. |
| Server.GameLogic.SettleKills | project/server/modules/gameLogic.js:31-39 | The kills loop gives `TickRules.SettleKills`. |
| Server.GameLogic.SettleKill | project/server/modules/gameLogic.js:32-38 | One iteration gives `TickRules.SettleOne`. |
| Server.GameLogic.EnemyKillEvents | project/server/modules/gameLogic.js:41-46 | The enemy-kills loop sends `TickRules.EnemyKillEvents`. |
| Server.GameLogic.PickupAll | project/server/modules/gameLogic.js:48-52 | The pickup loop gives `TickRules.PickupAll`. |
| Server.GameLogic.GetGameState | project/server/modules/gameLogic.js:55-62 | It returns `TickRules.State` and changes nothing. |
| Server.GameLogic.HandleMeleeAttack | project/server/app.js:30-41 | The handler returns nothing and changes nothing when `TickRules.HandleMelee` refuses; otherwise it leaves that world and stream position and sends those messages. |
| Server.GameLogic.EnemyKilledAll | project/server/app.js:33-35 | The `forEach` loop sends `TickRules.EnemyKilledAll`. |
| Server.GameLogic.HandleJoin | project/server/app.js:21-24 | It gives `TickRules.OnJoin` and answers `joined` with the world size. |
| Server.GameLogic.HandleMove | project/server/app.js:26-28 | It gives `TickRules.OnMove`. |
| Server.GameLogic.HandleRangedAttack | project/server/app.js:43-45 | It gives `TickRules.OnRanged`. |
| Server.GameLogic.HandleDisconnect | project/server/app.js:47-50 | It gives `TickRules.OnDisconnect`. |
| Server.GameLogic.HandleRespawn | project/server/modules/playerManager.js:102-109 | It gives `TickRules.OnRespawn`. |
| Server.GameLogic.Step | project/server/app.js:18-56 | The server's reaction to any input on its objects is `TickRules.Step`. |

## Left out

- Express, socket.io, the HTTP server, `console.log` and the database modules (`database.js`, `initDb.js`) are not part of this model. A message sent to a socket is an `Event` value returned by the handler, and the broadcast is a `GameState` value.
- Timing: `setInterval` and the tick rate become the `TickDue` input, and the three-second `setTimeout` of `handlePlayerDeath` becomes the `RespawnDue` input, which may arrive at any time.
- `Date.now()` is one `now` per operation; `checkPickup` reads the clock once per dropped coin and is modelled with a single instant.
- `Math.random()` is an unknown stream of draws; the model proves nothing about the distribution.
- Floating point is modelled by reals: no rounding, no `NaN` or `Infinity`. Square roots are not modelled: enemies aim and step along a unit vector given by the parameter `dir`, and every range test is made on squared distances.
- Player ids are strings with no structure; a socket id is taken as given.
- Server.PlayerManager.Respawn: acts on the record registered under the id when the timer fires. The source's timer acts on the object it captured, which differs when the same socket joined again in between.
- Player records in the kill lists are held by id, not by object reference. No player is removed during a tick, so the two agree there.
- Iterating a `Map` while deleting from it is modelled by a snapshot of the keys taken when the loop starts; every deletion in those loops is of the current or an already visited entry.
- `getHealthStatus` (gameLogic.js) reports table sizes for monitoring and carries no game rule.
- The client's `isMyPlayer`, `getRandomColor`, `getHealthBarColor` and `drawShadowedRect`, and the renderers, input handling and UI, are drawing and comparison code with no game rule; they are not part of this model.
- `coinManager.js` loads its configuration as `./gameConfig`, next to itself, while the other managers load `../gameConfig`. The model takes the constants of `project/server/gameConfig.js` for all of them.
- EnemyRules.RunEnemies: its own contract is the frame; the return at the first kill is stated by `RunStopsAtKill` and `RunLeavesRest`, the per-turn effects by `OwnTurnCases` and `EngageEffect`.
- TickRules.EnemyUpdate: its own contract is the frame; the respawn of a missing enemy and the kill it passes on are stated by `EnemyUpdateRepopulates`.
- BulletRules.BulletTurn: its own contract is the frame on the other bullets; what happens to the bullet itself is stated by `TurnLifecycle`.
- BulletRules.RunBullets: its own contract is well-formedness; which bullets survive a pass, and in what state, is stated by `RunSurvivors` and `PassesFly`.
- TickRules.SettleKills: its own contract is the frame; the messages it sends are stated by `SettleKillsMessages` and `KillMessagesReport`, and the bounty by `SettleOneCredit`.
- TickRules.EnemyPhase: its own contract is the frame; its `death` message is stated by `EnemyPhaseMessages`.
- CoinRules.CheckPickup: its own contract is the frame and a rising balance; the exact new balance is stated by `PickupCredits`.
- The `target` field that `spawnEnemy` sets to null, and the template's `color`, are never read by the server and are not modelled.
