/**
 * The four managers and the game loop as the server runs them: objects whose
 * tables are updated in place, one call at a time. Each method is proved to
 * leave its objects exactly as the rule of the same name describes, so what
 * the rule modules prove about the rules holds of the running server.
 *
 * The managers call into each other (the enemy update creates bullets and
 * drops coins, the bullet update damages enemies), so they share one module.
 */
module Server {
  import opened Wrappers
  import opened Config
  import opened Geometry
  import opened Random
  import opened Tables
  import opened Entities
  import EnemyRules
  import PlayerRules
  import BulletRules
  import CoinRules
  import TickRules

  /** The state of the four managers, as the tick rules see it. */
  ghost function WorldOf(pm: PlayerManager, em: EnemyManager, bm: BulletManager, cm: CoinManager): TickRules.World
    reads pm, em, bm, cm
  {
    TickRules.World(pm.players, em.enemies, em.nextId, bm.bullets, bm.nextId,
                    cm.coins, cm.nextCoin, cm.lastCoinSpawn, cm.droppedCoins, cm.nextDrop)
  }

  // ---------------------------------------------------------------------
  // playerManager.js

  class PlayerManager {
    /** `this.players`, keyed by socket id. */
    var players: Table<PlayerId, Player>

    ghost predicate Valid()
      reads this
    {
      players.Valid()
    }

    constructor ()
      ensures Valid() && players == Empty()
    {
      players := Empty();
    }

    /**
     * `addPlayer(socketId, data)`: a fresh record from two draws, stored
     * under the socket id (replacing any record already there) and returned.
     */
    method AddPlayer(id: PlayerId, name: Option<string>, rng: Rng) returns (p: Player)
      requires Valid()
      modifies this, rng
      ensures Valid()
      ensures p == PlayerRules.NewPlayer(id, name, rng.draw(old(rng.pos)), rng.draw(old(rng.pos) + 1))
      ensures players == old(players).Put(id, p) && rng.pos == old(rng.pos) + 2
    {
      var rx := rng.Next();
      var ry := rng.Next();
      p := Player(id, PlayerRules.DisplayName(name),
        rx * (WORLD_SIZE - 200.0) + 100.0, ry * (WORLD_SIZE - 200.0) + 100.0,
        PLAYER_MAX_HP, PLAYER_MAX_HP, 0, 0, 0);
      players := players.Put(id, p);
    }

    /** `removePlayer(socketId)`. */
    method RemovePlayer(id: PlayerId)
      requires Valid()
      modifies this
      ensures Valid() && players == old(players).Delete(id)
    {
      players := players.Delete(id);
    }

    /** `movePlayer(socketId, {dx, dy})`. */
    method MovePlayer(id: PlayerId, dx: real, dy: real)
      requires Valid()
      modifies this
      ensures Valid() && players == PlayerRules.Move(old(players), id, dx, dy)
    {
      if id !in players.vals || players.vals[id].hp <= 0 {
        return;
      }
      var player := players.vals[id];
      var newX := Max(PLAYER_SIZE, Min(WORLD_SIZE - PLAYER_SIZE, player.x + dx * PLAYER_SPEED));
      var newY := Max(PLAYER_SIZE, Min(WORLD_SIZE - PLAYER_SIZE, player.y + dy * PLAYER_SPEED));
      players := players.Put(id, player.(x := newX, y := newY));
    }

    /**
     * `meleeAttack(socketId, enemyManager)`: refused (null) for an unknown,
     * dead or cooling-down attacker; otherwise the two loops over the enemies
     * and the players, as `PlayerRules.MeleeAttack` describes them.
     */
    method MeleeAttack(id: PlayerId, em: EnemyManager, now: int) returns (r: Option<PlayerRules.MeleeOutcome>)
      requires Valid() && em.Valid()
      modifies this, em
      ensures Valid() && em.Valid() && em.nextId == old(em.nextId)
      ensures var m := PlayerRules.MeleeAttack(old(players), old(em.enemies), id, now);
        && (m.None? ==> r.None? && players == old(players) && em.enemies == old(em.enemies))
        && (m.Some? ==> r == Some(m.value.2) && players == m.value.0 && em.enemies == m.value.1)
    {
      if id !in players.vals || players.vals[id].hp <= 0 {
        return None;
      }
      var player := players.vals[id];
      if now - player.lastMeleeAttack < MELEE_COOLDOWN {
        return None;
      }
      ghost var enemies0 := em.enemies;
      player := player.(lastMeleeAttack := now);
      players := players.Put(id, player);
      ghost var players1 := players;
      var killedEnemies := MeleeEnemies(em, player.x, player.y);
      var gained, killedPlayers := MeleePlayers(id, player.x, player.y, player.name);
      PlayerRules.MeleeStrikeOf(players1, enemies0, id, player, players, gained, killedPlayers, em.enemies, killedEnemies);
      players := players.Put(id, player.(coins := player.coins + |killedEnemies| + gained));
      r := Some(PlayerRules.MeleeOutcome(killedEnemies, killedPlayers));
    }

    /**
     * The enemy loop of `meleeAttack`: every enemy in range of `(ax, ay)`
     * takes `MELEE.DAMAGE`; the ids it kills are collected in order.
     */
    method MeleeEnemies(em: EnemyManager, ax: real, ay: real) returns (killedEnemies: seq<EnemyId>)
      requires em.Valid()
      modifies em
      ensures em.Valid() && em.nextId == old(em.nextId)
      ensures (em.enemies, killedEnemies) == PlayerRules.MeleeEnemies(old(em.enemies), old(em.enemies).keys, ax, ay, [])
    {
      killedEnemies := [];
      var enemyIds := em.enemies.keys;
      while enemyIds != []
        invariant em.Valid() && em.nextId == old(em.nextId)
        invariant PlayerRules.MeleeEnemies(em.enemies, enemyIds, ax, ay, killedEnemies)
               == PlayerRules.MeleeEnemies(old(em.enemies), old(em.enemies).keys, ax, ay, [])
        decreases |enemyIds|
      {
        var enemyId := enemyIds[0];
        if enemyId in em.enemies.vals && PlayerRules.InMelee(ax, ay, em.enemies.vals[enemyId].x, em.enemies.vals[enemyId].y) {
          var killed := em.TakeDamage(enemyId, MELEE_DAMAGE);
          if killed {
            killedEnemies := killedEnemies + [enemyId];
          }
        }
        enemyIds := enemyIds[1..];
      }
    }

    /**
     * The player loop of `meleeAttack` by the player `id` at `(ax, ay)`: every
     * other living player in range takes `MELEE.DAMAGE`; for each one it kills
     * the attacker's bounty grows by a quarter of the victim's coins.
     */
    method MeleePlayers(id: PlayerId, ax: real, ay: real, name: string) returns (gained: nat, killedPlayers: seq<MeleeKill>)
      requires Valid()
      modifies this
      ensures Valid()
      ensures (players, gained, killedPlayers) == PlayerRules.MeleePlayers(old(players), old(players).keys, id, ax, ay, name, 0, [])
    {
      players, gained, killedPlayers := MeleePlayersIn(players, id, ax, ay, name);
    }

    /** The player loop of `meleeAttack` on the table `t0`, returning the table it leaves. */
    static method MeleePlayersIn(t0: Table<PlayerId, Player>, id: PlayerId, ax: real, ay: real, name: string)
      returns (t: Table<PlayerId, Player>, gained: nat, killedPlayers: seq<MeleeKill>)
      requires t0.Valid()
      ensures t.Valid() && (t, gained, killedPlayers) == PlayerRules.MeleePlayers(t0, t0.keys, id, ax, ay, name, 0, [])
    {
      t, gained, killedPlayers := t0, 0, [];
      var playerIds := t0.keys;
      while playerIds != []
        invariant t.Valid()
        invariant PlayerRules.MeleePlayers(t, playerIds, id, ax, ay, name, gained, killedPlayers)
               == PlayerRules.MeleePlayers(t0, t0.keys, id, ax, ay, name, 0, [])
        decreases |playerIds|
      {
        var playerId := playerIds[0];
        // the attacker itself, dead players and players out of range are skipped
        if playerId in t.vals && PlayerRules.Struck(id, ax, ay, playerId, t.vals[playerId]) {
          var other := t.vals[playerId].(hp := t.vals[playerId].hp - MELEE_DAMAGE);
          t := t.Put(playerId, other);
          if other.hp <= 0 {
            killedPlayers := killedPlayers + [MeleeKill(playerId, name)];
            gained := gained + other.coins / 4;
          }
        }
        playerIds := playerIds[1..];
      }
    }

    /**
     * `rangedAttack(socketId, {vx, vy}, bulletManager)`: refused for an
     * unknown, dead or cooling-down shooter; otherwise the cooldown is stamped
     * and one bullet is created.
     */
    method RangedAttack(id: PlayerId, vx: real, vy: real, bm: BulletManager, now: int)
      requires Valid() && bm.Valid()
      modifies this, bm
      ensures Valid() && bm.Valid()
      ensures match PlayerRules.RangedAttack(old(players), id, vx, vy, now)
        case None => players == old(players) && bm.bullets == old(bm.bullets) && bm.nextId == old(bm.nextId)
        case Some((ps, spec)) =>
          players == ps && (bm.bullets, bm.nextId) == BulletRules.Create(old(bm.bullets), old(bm.nextId), spec, now)
    {
      if id !in players.vals || players.vals[id].hp <= 0 {
        return;
      }
      var player := players.vals[id];
      if now - player.lastRangedAttack < RANGED_COOLDOWN {
        return;
      }
      players := players.Put(id, player.(lastRangedAttack := now));
      bm.CreateBullet(BulletSpec(player.x, player.y, vx * BULLET_SPEED, vy * BULLET_SPEED,
        RANGED_DAMAGE, Some(false), PlayerRef(id), None), now);
    }

    /**
     * `handlePlayerDeath(player, coinManager)` for the player under `id`:
     * hp becomes 0 and half its coins are dropped around it.
     */
    method HandlePlayerDeath(id: PlayerId, cm: CoinManager, now: int, rng: Rng)
      requires Valid() && cm.Valid() && id in players.vals
      modifies this, cm, rng
      ensures Valid() && cm.Valid()
      ensures players == old(players).Put(id, PlayerRules.Died(old(players.vals[id])))
      ensures CoinRules.Drops(cm.droppedCoins, cm.nextDrop, rng.pos)
           == CoinRules.PlayerDrops(CoinRules.Drops(old(cm.droppedCoins), old(cm.nextDrop), old(rng.pos)),
                                    old(players.vals[id]), now, rng.draw)
      ensures cm.coins == old(cm.coins) && cm.nextCoin == old(cm.nextCoin) && cm.lastCoinSpawn == old(cm.lastCoinSpawn)
    {
      var player := players.vals[id].(hp := 0);
      players := players.Put(id, player);
      cm.DropCoinsFromPlayer(player, now, rng);
    }

    /**
     * The respawn timer `handlePlayerDeath` sets, when it fires: a player
     * still registered is restored, with two draws; otherwise nothing happens.
     */
    method Respawn(id: PlayerId, rng: Rng)
      requires Valid()
      modifies this, rng
      ensures Valid()
      ensures players == PlayerRules.Respawn(old(players), id, rng.draw(old(rng.pos)), rng.draw(old(rng.pos) + 1))
      ensures rng.pos == old(rng.pos) + if id in old(players.vals) then 2 else 0
    {
      if id in players.vals {
        var player := players.vals[id];
        var rx := rng.Next();
        var ry := rng.Next();
        PlayerRules.HalfFloor(player.coins);
        player := player.(hp := PLAYER_MAX_HP,
                          x := rx * (WORLD_SIZE - 200.0) + 100.0, y := ry * (WORLD_SIZE - 200.0) + 100.0,
                          coins := (player.coins as real * PlayerRules.RESPAWN_KEEP).Floor);
        players := players.Put(id, player);
      }
    }
  }

  // ---------------------------------------------------------------------
  // enemyManager.js

  class EnemyManager {
    /** `this.enemies`, keyed by numeric id. */
    var enemies: Table<EnemyId, Enemy>
    var nextId: nat

    ghost predicate Valid()
      reads this
    {
      enemies.Valid() && EnemyRules.IdsBelow(enemies, nextId)
    }

    /** `new EnemyManager()`: ids start at 1 and `generateEnemies()` spawns `MAX_COUNT` enemies. */
    constructor (rng: Rng)
      modifies rng
      ensures Valid()
      ensures (enemies, nextId, rng.pos) == EnemyRules.SpawnMany(Empty(), 1, rng.draw, old(rng.pos), ENEMY_MAX_COUNT)
    {
      enemies := Empty();
      nextId := 1;
      new;
      GenerateEnemies(rng);
    }

    /** `generateEnemies()`: `MAX_COUNT` calls of `spawnEnemy()`. */
    method GenerateEnemies(rng: Rng)
      requires Valid()
      modifies this, rng
      ensures Valid()
      ensures (enemies, nextId, rng.pos) == EnemyRules.SpawnMany(old(enemies), old(nextId), rng.draw, old(rng.pos), ENEMY_MAX_COUNT)
    {
      var i: nat := 0;
      while i < ENEMY_MAX_COUNT
        invariant i <= ENEMY_MAX_COUNT && Valid()
        invariant EnemyRules.SpawnMany(enemies, nextId, rng.draw, rng.pos, ENEMY_MAX_COUNT - i)
               == EnemyRules.SpawnMany(old(enemies), old(nextId), rng.draw, old(rng.pos), ENEMY_MAX_COUNT)
      {
        SpawnEnemy(rng);
        i := i + 1;
      }
    }

    /** `spawnEnemy()`: a template and a position from three draws, under the next id. */
    method SpawnEnemy(rng: Rng)
      requires Valid()
      modifies this, rng
      ensures Valid()
      ensures (enemies, nextId, rng.pos) == EnemyRules.Spawn(old(enemies), old(nextId), rng.draw, old(rng.pos))
    {
      var kindRoll := rng.Next();
      var kind := EnemyRules.KindOfRoll(kindRoll);
      var id := nextId;
      nextId := nextId + 1;
      var rx := rng.Next();
      var ry := rng.Next();
      enemies := enemies.Put(id, Enemy(id, kind,
        rx * (WORLD_SIZE - 400.0) + 200.0, ry * (WORLD_SIZE - 400.0) + 200.0,
        TemplateHp(kind), TemplateHp(kind), 0, 0));
    }

    /** `findClosestPlayer(enemy, players)`: the scan over the living players. */
    method FindClosestPlayer(e: Enemy, players: Table<PlayerId, Player>) returns (closest: Option<PlayerId>)
      ensures closest == EnemyRules.ClosestPlayer(players, e.x, e.y)
    {
      var best: Option<(PlayerId, real)> := None;
      var rest := players.keys;
      while rest != []
        invariant EnemyRules.ClosestFrom(players, rest, e.x, e.y, best)
               == EnemyRules.ClosestFrom(players, players.keys, e.x, e.y, None)
        decreases |rest|
      {
        var k := rest[0];
        if k in players.vals && players.vals[k].hp > 0 {
          var dist := Dist2(e.x, e.y, players.vals[k].x, players.vals[k].y);
          if best.None? || dist < best.value.1 {
            best := Some((k, dist));
          }
        }
        rest := rest[1..];
      }
      closest := if best.None? then None else Some(best.value.0);
    }

    /**
     * One iteration of the loop of `update(players, bulletManager, coinManager)`
     * for the enemy under `id`: a dead enemy drops its coin and is removed; a
     * living one with a living target shoots, steps and strikes. `dir(dx, dy)`
     * stands for the unit vector `(dx / dist, dy / dist)`.
     */
    method Turn(id: EnemyId, pm: PlayerManager, bm: BulletManager, cm: CoinManager, now: int,
                dir: (real, real) -> (real, real), rng: Rng) returns (kill: Option<Kill>)
      requires Valid() && pm.Valid() && bm.Valid() && cm.Valid() && id in enemies.vals
      modifies this, pm, bm, cm, rng
      ensures Valid() && pm.Valid() && bm.Valid() && cm.Valid() && nextId == old(nextId)
      ensures cm.coins == old(cm.coins) && cm.nextCoin == old(cm.nextCoin) && cm.lastCoinSpawn == old(cm.lastCoinSpawn)
      ensures var own := EnemyRules.OwnTurn(old(enemies), old(pm.players), id, now, dir);
        && enemies == own.0.enemies && pm.players == own.0.players && kill == own.1
        && (bm.bullets, bm.nextId) == BulletRules.CreateAll(old(bm.bullets), old(bm.nextId), own.0.shots, now)
        && CoinRules.Drops(cm.droppedCoins, cm.nextDrop, rng.pos)
           == CoinRules.EnemyDrops(CoinRules.Drops(old(cm.droppedCoins), old(cm.nextDrop), old(rng.pos)), own.0.drops, now, rng.draw)
    {
      var e := enemies.vals[id];
      if e.hp <= 0 {
        cm.DropCoinFromEnemy(e.x, e.y, TypeName(e.kind), now, rng);
        enemies := enemies.Delete(id);
        return None;
      }
      var target := FindClosestPlayer(e, pm.players);
      if target.None? {
        return None;
      }
      ghost var b0, n0 := bm.bullets, bm.nextId;
      var shot: Option<BulletSpec>;
      enemies, pm.players, shot, kill := Engage(enemies, pm.players, id, e, target.value, now, dir);
      if shot.Some? {
        bm.CreateBullet(shot.value, now);
        BulletRules.CreateAllOne(b0, n0, shot.value, now);
      } else {
        BulletRules.CreateAllNone(b0, n0, now);
      }
    }

    /**
     * The rest of a turn, for the living enemy `e0` under `id` whose closest
     * living player is `pid`: the bullet it fires (created by the caller),
     * its step and clamp, and its contact hit.
     */
    static method Engage(enemies0: Table<EnemyId, Enemy>, players0: Table<PlayerId, Player>, id: EnemyId, e0: Enemy, pid: PlayerId,
                         now: int, dir: (real, real) -> (real, real))
      returns (enemies: Table<EnemyId, Enemy>, players: Table<PlayerId, Player>, shot: Option<BulletSpec>, kill: Option<Kill>)
      requires pid in players0.vals
      ensures var r := EnemyRules.Engage(enemies0, players0, id, e0, pid, now, dir);
        && enemies == r.0.enemies && players == r.0.players && kill == r.1 && r.0.drops == []
        && r.0.shots == if shot.Some? then [shot.value] else []
    {
      EnemyRules.EngageCases(enemies0, players0, id, e0, pid, now, dir);
      enemies, players := enemies0, players0;
      var e := e0;
      var p := players.vals[pid];
      var d2 := Dist2(e.x, e.y, p.x, p.y);
      var u := dir(p.x - e.x, p.y - e.y);
      shot := None;
      if EnemyRules.Fires(e, d2, now) {
        shot := Some(EnemyRules.EnemyShot(id, e, u.0, u.1));
        e := e.(lastShot := now);
      }
      e := EnemyRules.Moved(e, d2, u.0, u.1);
      kill := None;
      if EnemyRules.Contacts(e0, d2, now) {
        p := p.(hp := p.hp - Damage(e0.kind));
        e := e.(lastHit := now);
        players := players.Put(pid, p);
        if p.hp <= 0 {
          kill := Some(Kill(pid, TypeName(e0.kind) + " enemy"));
        }
      }
      enemies := enemies.Put(id, e);
    }

    /**
     * `update(players, bulletManager, coinManager)`: the turns of the enemies
     * and then, when the pass ends without a kill and fewer than `MIN_COUNT`
     * enemies remain, one spawn.
     */
    method Update(pm: PlayerManager, bm: BulletManager, cm: CoinManager, now: int,
                  dir: (real, real) -> (real, real), rng: Rng) returns (kill: Option<Kill>)
      requires Valid() && pm.Valid() && bm.Valid() && cm.Valid()
      modifies this, pm, bm, cm, rng
      ensures Valid() && pm.Valid() && bm.Valid() && cm.Valid()
      ensures (WorldOf(pm, this, bm, cm), rng.pos, kill)
           == TickRules.EnemyUpdate(old(WorldOf(pm, this, bm, cm)), now, dir, rng.draw, old(rng.pos))
    {
      ghost var w := WorldOf(pm, this, bm, cm);
      ghost var p0 := rng.pos;
      kill := RunTurns(pm, bm, cm, now, dir, rng);
      ghost var final := EnemyRules.RunEnemies(EnemyRules.EnemyPass(w.enemies, w.players, [], []), w.enemies.keys, now, dir);
      ghost var d := CoinRules.Drops(cm.droppedCoins, cm.nextDrop, rng.pos);
      TickRules.EnemyUpdateOf(w, now, dir, rng.draw, p0, final.0, kill, d, bm.bullets, bm.nextId);
      if kill.None? && enemies.Size() < ENEMY_MIN_COUNT {
        SpawnEnemy(rng);
      }
    }

    /**
     * The loop of `update`: one turn per enemy in the table's order, stopping
     * at the first contact kill. The shots and drops of the turns go to `bm`
     * and `cm` as they happen.
     */
    method RunTurns(pm: PlayerManager, bm: BulletManager, cm: CoinManager, now: int,
                    dir: (real, real) -> (real, real), rng: Rng) returns (kill: Option<Kill>)
      requires Valid() && pm.Valid() && bm.Valid() && cm.Valid()
      modifies this, pm, bm, cm, rng
      ensures Valid() && pm.Valid() && bm.Valid() && cm.Valid() && nextId == old(nextId)
      ensures cm.coins == old(cm.coins) && cm.nextCoin == old(cm.nextCoin) && cm.lastCoinSpawn == old(cm.lastCoinSpawn)
      ensures var final := EnemyRules.RunEnemies(EnemyRules.EnemyPass(old(enemies), old(pm.players), [], []), old(enemies).keys, now, dir);
        && enemies == final.0.enemies && pm.players == final.0.players && kill == final.1
        && (bm.bullets, bm.nextId) == BulletRules.CreateAll(old(bm.bullets), old(bm.nextId), final.0.shots, now)
        && CoinRules.Drops(cm.droppedCoins, cm.nextDrop, rng.pos)
           == CoinRules.EnemyDrops(CoinRules.Drops(old(cm.droppedCoins), old(cm.nextDrop), old(rng.pos)), final.0.drops, now, rng.draw)
    {
      ghost var w := WorldOf(pm, this, bm, cm);
      ghost var d0 := CoinRules.Drops(cm.droppedCoins, cm.nextDrop, rng.pos);
      ghost var final := EnemyRules.RunEnemies(EnemyRules.EnemyPass(enemies, pm.players, [], []), enemies.keys, now, dir);
      ghost var shots: seq<BulletSpec> := [];
      ghost var drops: seq<DropRequest> := [];
      var enemyIds := enemies.keys;
      kill := None;
      while enemyIds != [] && kill.None?
        invariant Valid() && pm.Valid() && bm.Valid() && cm.Valid() && nextId == w.nextEnemy
        invariant cm.coins == w.coins && cm.nextCoin == w.nextCoin && cm.lastCoinSpawn == w.lastCoinSpawn
        invariant Distinct(enemyIds) && forall k :: k in enemyIds ==> k in enemies.vals
        invariant kill.None? ==>
          EnemyRules.RunEnemies(EnemyRules.EnemyPass(enemies, pm.players, shots, drops), enemyIds, now, dir) == final
        invariant kill.Some? ==> (EnemyRules.EnemyPass(enemies, pm.players, shots, drops), kill) == final
        invariant (bm.bullets, bm.nextId) == BulletRules.CreateAll(w.bullets, w.nextBullet, shots, now)
        invariant CoinRules.Drops(cm.droppedCoins, cm.nextDrop, rng.pos) == CoinRules.EnemyDrops(d0, drops, now, rng.draw)
        decreases |enemyIds|
      {
        var enemyId := enemyIds[0];
        ghost var st := EnemyRules.EnemyPass(enemies, pm.players, shots, drops);
        ghost var own := EnemyRules.OwnTurn(enemies, pm.players, enemyId, now, dir);
        kill := Turn(enemyId, pm, bm, cm, now, dir, rng);
        BulletRules.CreateAllAppend(w.bullets, w.nextBullet, shots, own.0.shots, now);
        CoinRules.EnemyDropsAppend(d0, drops, own.0.drops, now, rng.draw);
        shots, drops := shots + own.0.shots, drops + own.0.drops;
        assert EnemyRules.EnemyTurn(st, enemyId, now, dir) == (EnemyRules.EnemyPass(enemies, pm.players, shots, drops), kill);
        DistinctTail(enemyIds);
        enemyIds := enemyIds[1..];
      }
      assert (EnemyRules.EnemyPass(enemies, pm.players, shots, drops), kill) == final;
    }

    /** `takeDamage(enemyId, damage)`. */
    method TakeDamage(id: EnemyId, damage: int) returns (killed: bool)
      requires Valid()
      modifies this
      ensures Valid() && nextId == old(nextId)
      ensures (enemies, killed) == EnemyRules.TakeDamage(old(enemies), id, damage)
    {
      if id in enemies.vals {
        var e := enemies.vals[id];
        e := e.(hp := e.hp - damage);
        enemies := enemies.Put(id, e);
        return e.hp <= 0;
      }
      return false;
    }

    /** `removeEnemy(enemyId)`. */
    method RemoveEnemy(id: EnemyId)
      requires Valid()
      modifies this
      ensures Valid() && nextId == old(nextId) && enemies == old(enemies).Delete(id)
    {
      enemies := enemies.Delete(id);
    }
  }

  // ---------------------------------------------------------------------
  // bulletManager.js

  class BulletManager {
    /** `this.bullets`, keyed by numeric id. */
    var bullets: Table<BulletId, Bullet>
    var nextId: nat

    ghost predicate Valid()
      reads this
    {
      bullets.Valid() && EnemyRules.IdsBelow(bullets, nextId)
    }

    constructor ()
      ensures Valid() && bullets == Empty() && nextId == 1
    {
      bullets := Empty();
      nextId := 1;
    }

    /** `createBullet(bulletData)`. */
    method CreateBullet(spec: BulletSpec, now: int)
      requires Valid()
      modifies this
      ensures Valid()
      ensures (bullets, nextId) == BulletRules.Create(old(bullets), old(nextId), spec, now)
    {
      var id := nextId;
      nextId := nextId + 1;
      bullets := bullets.Put(id, Bullet(id, spec.x, spec.y, spec.vx, spec.vy, spec.damage,
        if spec.fromEnemy.Some? then spec.fromEnemy.value else false,
        spec.ownerId,
        if spec.life.Some? && spec.life.value != 0 then spec.life.value else BULLET_LIFE,
        now));
    }

    /**
     * `update(players, enemyManager)`: one turn per bullet, in the order of
     * the ids present when the pass starts; returns the kills of the pass.
     */
    method Update(pm: PlayerManager, em: EnemyManager) returns (killedPlayers: seq<PlayerKill>, killedEnemies: seq<EnemyKill>)
      requires Valid() && pm.Valid() && em.Valid()
      modifies this, pm, em
      ensures Valid() && pm.Valid() && em.Valid() && nextId == old(nextId) && em.nextId == old(em.nextId)
      ensures BulletRules.BulletPass(bullets, pm.players, em.enemies, killedPlayers, killedEnemies)
           == BulletRules.RunBullets(BulletRules.BulletPass(old(bullets), old(pm.players), old(em.enemies), [], []), old(bullets).keys)
    {
      killedPlayers, killedEnemies := [], [];
      ghost var final := BulletRules.RunBullets(BulletRules.BulletPass(bullets, pm.players, em.enemies, [], []), bullets.keys);
      var bulletIds := bullets.keys;
      while bulletIds != []
        invariant Valid() && pm.Valid() && em.Valid() && nextId == old(nextId) && em.nextId == old(em.nextId)
        invariant Distinct(bulletIds) && forall k :: k in bulletIds ==> k in bullets.vals
        invariant BulletRules.RunBullets(BulletRules.BulletPass(bullets, pm.players, em.enemies, killedPlayers, killedEnemies), bulletIds) == final
        decreases |bulletIds|
      {
        var bulletId := bulletIds[0];
        DistinctTail(bulletIds);
        killedPlayers, killedEnemies := Turn(bulletId, pm, em, killedPlayers, killedEnemies);
        bulletIds := bulletIds[1..];
      }
    }

    /**
     * One iteration of the loop of `update`: the bullet under `id` moves and
     * ages; an expired one is deleted, otherwise it strikes.
     */
    method Turn(id: BulletId, pm: PlayerManager, em: EnemyManager, kp0: seq<PlayerKill>, ke0: seq<EnemyKill>)
      returns (kp: seq<PlayerKill>, ke: seq<EnemyKill>)
      requires Valid() && pm.Valid() && em.Valid() && id in bullets.vals
      modifies this, pm, em
      ensures Valid() && pm.Valid() && em.Valid() && nextId == old(nextId) && em.nextId == old(em.nextId)
      ensures BulletRules.BulletPass(bullets, pm.players, em.enemies, kp, ke)
           == BulletRules.BulletTurn(BulletRules.BulletPass(old(bullets), old(pm.players), old(em.enemies), kp0, ke0), id)
    {
      kp, ke := kp0, ke0;
      var b := BulletRules.Advanced(bullets.vals[id]);
      if BulletRules.Expired(b) {
        bullets := bullets.Delete(id);
        return;
      }
      bullets := bullets.Put(id, b);
      if b.fromEnemy {
        kp := StrikePlayers(id, b, pm, kp, em.enemies, ke);
      } else {
        ke := StrikeEnemies(id, b, em, ke, pm.players, kp);
        kp := StrikePlayers(id, b, pm, kp, em.enemies, ke);
      }
    }

    /**
     * The players loop of a bullet's turn: the first player it can hit loses
     * the bullet's damage and the bullet is deleted; a kill is reported with
     * `killerName` `'enemy bullet'` and a null `shooterId` for an enemy
     * bullet, and with the shooter's name looked up after the damage and the
     * bullet's owner for a player bullet.
     */
    method StrikePlayers(id: BulletId, b: Bullet, pm: PlayerManager, kp0: seq<PlayerKill>,
                         ghost enemies: Table<EnemyId, Enemy>, ghost ke: seq<EnemyKill>) returns (kp: seq<PlayerKill>)
      requires Valid() && pm.Valid() && enemies.Valid()
      modifies this, pm
      ensures Valid() && pm.Valid() && nextId == old(nextId)
      ensures var st := BulletRules.BulletPass(old(bullets), old(pm.players), enemies, kp0, ke);
        BulletRules.BulletPass(bullets, pm.players, enemies, kp, ke)
        == if b.fromEnemy then BulletRules.StrikePlayer(st, id, b, None, "enemy bullet", None)
           else BulletRules.StrikePlayer(st, id, b, BulletRules.Skip(b.ownerId), BulletRules.ShooterName(old(pm.players), b.ownerId), Some(b.ownerId))
    {
      ghost var st := BulletRules.BulletPass(bullets, pm.players, enemies, kp0, ke);
      var skip := if b.fromEnemy then None else BulletRules.Skip(b.ownerId);
      var players := pm.players;
      var victim := FirstPlayerIn(players, b, skip);
      var kill: Option<PlayerKill> := None;
      if victim.Some? {
        var pid := victim.value;
        var p := players.vals[pid].(hp := players.vals[pid].hp - b.damage);
        BulletRules.ShooterNameKeeps(players, pid, p.hp, b.ownerId);
        players := players.Put(pid, p);
        var left := bullets.Delete(id);
        assert left.Valid() && EnemyRules.IdsBelow(left, nextId);
        bullets := left;
        if p.hp <= 0 {
          kill := Some(if b.fromEnemy then PlayerKill(pid, "enemy bullet", None)
                       else PlayerKill(pid, BulletRules.ShooterName(players, b.ownerId), Some(b.ownerId)));
        }
      }
      assert players.Valid();
      pm.players := players;
      kp := kp0 + if kill.Some? then [kill.value] else [];
      if b.fromEnemy {
        BulletRules.StrikePlayerOf(st, id, b, skip, "enemy bullet", None, pm.players, victim, kill);
      } else {
        BulletRules.StrikePlayerOf(st, id, b, skip, BulletRules.ShooterName(st.players, b.ownerId), Some(b.ownerId), pm.players, victim, kill);
      }
    }

    /** The scan of the players loop over `t`. */
    static method FirstPlayerIn(t: Table<PlayerId, Player>, b: Bullet, skip: Option<PlayerId>) returns (victim: Option<PlayerId>)
      ensures victim == BulletRules.PlayerHitBy(t, b, skip)
    {
      var i := 0;
      while i < |t.keys|
        invariant 0 <= i <= |t.keys|
        invariant forall j :: 0 <= j < i ==> !BulletRules.PlayerTarget(t, t.keys[j], b.x, b.y, skip)
      {
        var playerId := t.keys[i];
        if BulletRules.PlayerTarget(t, playerId, b.x, b.y, skip) {
          return Some(playerId);
        }
        i := i + 1;
      }
      return None;
    }

    /**
     * The enemies loop of a player bullet's turn: the first enemy it reaches
     * goes through `takeDamage` and the bullet is deleted; a kill is reported
     * with the bullet's owner.
     */
    method StrikeEnemies(id: BulletId, b: Bullet, em: EnemyManager, ke0: seq<EnemyKill>,
                         ghost players: Table<PlayerId, Player>, ghost kp: seq<PlayerKill>) returns (ke: seq<EnemyKill>)
      requires Valid() && em.Valid() && players.Valid()
      modifies this, em
      ensures Valid() && em.Valid() && nextId == old(nextId) && em.nextId == old(em.nextId)
      ensures BulletRules.BulletPass(bullets, players, em.enemies, kp, ke)
           == BulletRules.StrikeEnemy(BulletRules.BulletPass(old(bullets), players, old(em.enemies), kp, ke0), id, b)
    {
      ghost var st := BulletRules.BulletPass(bullets, players, em.enemies, kp, ke0);
      var struck := FirstEnemyIn(em.enemies, b);
      var killed := false;
      if struck.Some? {
        killed := em.TakeDamage(struck.value, b.damage);
        bullets := bullets.Delete(id);
      }
      ke := ke0 + if killed then [EnemyKill(struck.value, b.ownerId)] else [];
      BulletRules.StrikeEnemyOf(st, id, b, em.enemies, struck, killed);
    }

    /** The scan of the enemies loop over `t`. */
    static method FirstEnemyIn(t: Table<EnemyId, Enemy>, b: Bullet) returns (struck: Option<EnemyId>)
      ensures struck == BulletRules.EnemyHitBy(t, b)
    {
      var i := 0;
      while i < |t.keys|
        invariant 0 <= i <= |t.keys|
        invariant forall j :: 0 <= j < i ==> !BulletRules.EnemyTarget(t, t.keys[j], b.x, b.y)
      {
        var enemyId := t.keys[i];
        if BulletRules.EnemyTarget(t, enemyId, b.x, b.y) {
          return Some(enemyId);
        }
        i := i + 1;
      }
      return None;
    }
  }

  // ---------------------------------------------------------------------
  // coinManager.js

  class CoinManager {
    /** `this.coins`: the ambient coins. */
    var coins: Table<CoinId, Coin>
    /** `this.droppedCoins`: the coins dropped by enemies and dying players. */
    var droppedCoins: Table<CoinId, DroppedCoin>
    /** `this.nextId.coin` and `this.nextId.drop`. */
    var nextCoin: nat
    var nextDrop: nat
    var lastCoinSpawn: int

    ghost predicate Valid()
      reads this
    {
      && coins.Valid() && droppedCoins.Valid()
      && EnemyRules.IdsBelow(coins, nextCoin) && EnemyRules.IdsBelow(droppedCoins, nextDrop)
    }

    constructor ()
      ensures Valid() && coins == Empty() && droppedCoins == Empty()
      ensures nextCoin == 1 && nextDrop == 1 && lastCoinSpawn == 0
    {
      coins := Empty();
      droppedCoins := Empty();
      nextCoin := 1;
      nextDrop := 1;
      lastCoinSpawn := 0;
    }

    /** `spawnCoin()`. */
    method SpawnCoin(rng: Rng)
      requires Valid()
      modifies this, rng
      ensures Valid() && droppedCoins == old(droppedCoins) && nextDrop == old(nextDrop) && lastCoinSpawn == old(lastCoinSpawn)
      ensures (coins, nextCoin, rng.pos) == CoinRules.SpawnCoin(old(coins), old(nextCoin), rng.draw, old(rng.pos))
    {
      var id := nextCoin;
      nextCoin := nextCoin + 1;
      var rx := rng.Next();
      var ry := rng.Next();
      coins := coins.Put(id, Coin(id, rx * (WORLD_SIZE - 200.0) + 100.0, ry * (WORLD_SIZE - 200.0) + 100.0, 1));
    }

    /** `dropCoinFromEnemy(x, y, enemyType)`. */
    method DropCoinFromEnemy(x: real, y: real, enemyType: string, now: int, rng: Rng)
      requires Valid()
      modifies this, rng
      ensures Valid() && coins == old(coins) && nextCoin == old(nextCoin) && lastCoinSpawn == old(lastCoinSpawn)
      ensures CoinRules.Drops(droppedCoins, nextDrop, rng.pos)
           == CoinRules.EnemyDrop(CoinRules.Drops(old(droppedCoins), old(nextDrop), old(rng.pos)),
                                  DropRequest(x, y, enemyType), now, rng.draw)
    {
      var dropChance := CoinRules.DropChanceOf(enemyType);
      var roll := rng.Next();
      if roll < dropChance {
        var dropId := nextDrop;
        nextDrop := nextDrop + 1;
        var rx := rng.Next();
        var ry := rng.Next();
        droppedCoins := droppedCoins.Put(dropId, CoinRules.DroppedNear(dropId, x, y, rx, ry, CoinRules.ENEMY_DROP_SPREAD, now));
      }
    }

    /** `dropCoinsFromPlayer(player)`: half the player's coins, one dropped coin per iteration. */
    method DropCoinsFromPlayer(player: Player, now: int, rng: Rng)
      requires Valid()
      modifies this, rng
      ensures Valid() && coins == old(coins) && nextCoin == old(nextCoin) && lastCoinSpawn == old(lastCoinSpawn)
      ensures CoinRules.Drops(droppedCoins, nextDrop, rng.pos)
           == CoinRules.PlayerDrops(CoinRules.Drops(old(droppedCoins), old(nextDrop), old(rng.pos)), player, now, rng.draw)
    {
      var coinsToDrop := CoinRules.DropCount(player.coins);
      ghost var target := CoinRules.PlayerDrops(CoinRules.Drops(droppedCoins, nextDrop, rng.pos), player, now, rng.draw);
      droppedCoins, nextDrop := DropAround(droppedCoins, nextDrop, coinsToDrop, player.x, player.y, now, rng);
    }

    /**
     * The loop of `dropCoinsFromPlayer`: `n` coins around `(x, y)` under the
     * ids from `id0` on, two draws each.
     */
    method DropAround(drops0: Table<CoinId, DroppedCoin>, id0: nat, n: nat, x: real, y: real, now: int, rng: Rng)
      returns (drops: Table<CoinId, DroppedCoin>, dropId: nat)
      modifies rng
      ensures CoinRules.Drops(drops, dropId, rng.pos)
           == CoinRules.Drops(PutFrom(drops0, id0, CoinRules.PlayerCoins(id0, x, y, old(rng.pos), n, now, rng.draw)), id0 + n, old(rng.pos) + n + n)
    {
      ghost var draw, pos0 := rng.draw, rng.pos;
      ghost var target := CoinRules.DropsAround(drops0, id0, pos0, n, x, y, now, draw);
      drops, dropId := drops0, id0;
      var i: nat := 0;
      ghost var left: nat := n;
      while i < n
        invariant i <= n && left == n - i && dropId == id0 + i && rng.pos == pos0 + i + i
        invariant target == CoinRules.DropsAround(drops, dropId, rng.pos, left, x, y, now, draw)
        modifies rng
      {
        drops := DropOne(drops, dropId, x, y, now, rng, left);
        dropId := dropId + 1;
        i, left := i + 1, left - 1;
      }
      CoinRules.DropsAroundNone(drops, dropId, rng.pos, left, x, y, now, draw);
    }

    /** One pass of that loop: the coin `id` near `(x, y)` from the next two draws. */
    static method DropOne(drops0: Table<CoinId, DroppedCoin>, id: CoinId, x: real, y: real, now: int, rng: Rng, ghost left: nat)
      returns (drops: Table<CoinId, DroppedCoin>)
      requires left > 0
      modifies rng
      ensures rng.pos == old(rng.pos) + 2
      ensures CoinRules.DropsAround(drops0, id, old(rng.pos), left, x, y, now, rng.draw)
           == CoinRules.DropsAround(drops, id + 1, rng.pos, left - 1, x, y, now, rng.draw)
    {
      ghost var p0 := rng.pos;
      var rx := rng.Next();
      var ry := rng.Next();
      drops := drops0.Put(id, CoinRules.DroppedNear(id, x, y, rx, ry, CoinRules.PLAYER_DROP_SPREAD, now));
      CoinRules.PlayerDropStep(drops0, id, p0, left, drops, id + 1, p0 + 2, left - 1, x, y, now, rng.draw, rx, ry);
    }

    /**
     * `checkPickup(player)`: the two loops over the ambient and the dropped
     * coins. The source bumps the player's count in place; here the updated
     * player is returned for the caller to store.
     */
    method CheckPickup(player: Player, now: int) returns (p: Player)
      requires Valid()
      modifies this
      ensures Valid() && nextCoin == old(nextCoin) && nextDrop == old(nextDrop) && lastCoinSpawn == old(lastCoinSpawn)
      ensures (coins, droppedCoins, p) == CoinRules.CheckPickup(old(coins), old(droppedCoins), player, now)
    {
      ghost var c0, d0 := coins, droppedCoins;
      var n1 := PickAmbient(player.x, player.y);
      assert (coins, n1) == CoinRules.PickAmbient(c0, c0.keys, player.x, player.y, 0);
      var n2 := PickDropped(player.x, player.y, now);
      assert (droppedCoins, n2) == CoinRules.PickDropped(d0, d0.keys, player.x, player.y, now, 0);
      p := player.(coins := player.coins + n1 + n2);
      ghost var r := CoinRules.CheckPickup(c0, d0, player, now);
      assert r.0 == coins;
      assert r.1 == droppedCoins;
      assert r.2 == p;
    }

    /** The first loop of `checkPickup`: ambient coins in range of `(px, py)` are removed and counted. */
    method PickAmbient(px: real, py: real) returns (n: nat)
      requires Valid()
      modifies this
      ensures Valid() && droppedCoins == old(droppedCoins)
      ensures nextCoin == old(nextCoin) && nextDrop == old(nextDrop) && lastCoinSpawn == old(lastCoinSpawn)
      ensures (coins, n) == CoinRules.PickAmbient(old(coins), old(coins).keys, px, py, 0)
    {
      n := 0;
      var coinIds := coins.keys;
      while coinIds != []
        invariant Valid() && droppedCoins == old(droppedCoins)
        invariant nextCoin == old(nextCoin) && nextDrop == old(nextDrop) && lastCoinSpawn == old(lastCoinSpawn)
        invariant CoinRules.PickAmbient(coins, coinIds, px, py, n) == CoinRules.PickAmbient(old(coins), old(coins).keys, px, py, 0)
        decreases |coinIds|
      {
        var coinId := coinIds[0];
        if coinId in coins.vals && CoinRules.InPickup(px, py, coins.vals[coinId].x, coins.vals[coinId].y) {
          n := n + 1;
          coins := coins.Delete(coinId);
        }
        coinIds := coinIds[1..];
      }
    }

    /** The second loop of `checkPickup`: timed-out drops are removed, drops in range of `(px, py)` removed and counted. */
    method PickDropped(px: real, py: real, now: int) returns (n: nat)
      requires Valid()
      modifies this
      ensures Valid() && coins == old(coins)
      ensures nextCoin == old(nextCoin) && nextDrop == old(nextDrop) && lastCoinSpawn == old(lastCoinSpawn)
      ensures (droppedCoins, n) == CoinRules.PickDropped(old(droppedCoins), old(droppedCoins).keys, px, py, now, 0)
    {
      n := 0;
      var dropIds := droppedCoins.keys;
      while dropIds != []
        invariant Valid() && coins == old(coins)
        invariant nextCoin == old(nextCoin) && nextDrop == old(nextDrop) && lastCoinSpawn == old(lastCoinSpawn)
        invariant CoinRules.PickDropped(droppedCoins, dropIds, px, py, now, n)
               == CoinRules.PickDropped(old(droppedCoins), old(droppedCoins).keys, px, py, now, 0)
        decreases |dropIds|
      {
        var dropId := dropIds[0];
        if dropId in droppedCoins.vals && now > droppedCoins.vals[dropId].timeout {
          droppedCoins := droppedCoins.Delete(dropId);
        } else if dropId in droppedCoins.vals
          && CoinRules.InPickup(px, py, droppedCoins.vals[dropId].x, droppedCoins.vals[dropId].y)
        {
          n := n + 1;
          droppedCoins := droppedCoins.Delete(dropId);
        }
        dropIds := dropIds[1..];
      }
    }

    /** `update()`: spawn one coin when the interval has passed and fewer than the maximum lie about. */
    method Update(now: int, rng: Rng)
      requires Valid()
      modifies this, rng
      ensures Valid() && droppedCoins == old(droppedCoins) && nextDrop == old(nextDrop)
      ensures CoinRules.CoinTick(coins, nextCoin, lastCoinSpawn, rng.pos)
           == CoinRules.Tick(CoinRules.CoinTick(old(coins), old(nextCoin), old(lastCoinSpawn), old(rng.pos)), now, rng.draw)
    {
      if now - lastCoinSpawn > CoinRules.COIN_SPAWN_INTERVAL && coins.Size() < CoinRules.COIN_MAX_AMBIENT {
        SpawnCoin(rng);
        lastCoinSpawn := now;
      }
    }
  }

  // ---------------------------------------------------------------------
  // gameLogic.js

  class GameLogic {
    const pm: PlayerManager
    const em: EnemyManager
    const bm: BulletManager
    const cm: CoinManager
    /** The `Math.random()` every manager draws from. */
    const rng: Rng

    ghost predicate Valid()
      reads this, pm, em, bm, cm
    {
      pm.Valid() && em.Valid() && bm.Valid() && cm.Valid()
    }

    /** The state of the four managers. */
    ghost function World(): TickRules.World
      reads this, pm, em, bm, cm
    {
      WorldOf(pm, em, bm, cm)
    }

    /** `new GameLogic(io)`: the four managers; the enemy manager spawns its first enemies. */
    constructor (rng: Rng)
      modifies rng
      ensures Valid() && this.rng == rng
      ensures (World(), rng.pos) == TickRules.Initial(rng.draw, old(rng.pos))
    {
      var enemyManager := new EnemyManager(rng);
      var playerManager := new PlayerManager();
      var bulletManager := new BulletManager();
      var coinManager := new CoinManager();
      pm, em, bm, cm := playerManager, enemyManager, bulletManager, coinManager;
      this.rng := rng;
      new;
      TickRules.InitialOf(rng.draw, old(rng.pos), em.enemies, em.nextId, rng.pos);
    }

    /**
     * `update()`: one tick; returns the socket messages it sends, in order.
     * `dir` normalises the enemies' aim and step.
     */
    method Update(now: int, dir: (real, real) -> (real, real)) returns (events: seq<TickRules.Event>)
      requires Valid()
      modifies pm, em, bm, cm, rng
      ensures Valid()
      ensures (World(), rng.pos, events) == TickRules.Tick(old(World()), now, dir, rng.draw, old(rng.pos))
    {
      ghost var w := World();
      var deathEvents := EnemyPhase(now, dir);
      ghost var w3, p3 := World(), rng.pos;
      var laterEvents := BulletPhase(now);
      events := deathEvents + laterEvents;
    }

    /** The coin update, the enemy update and the death of the player an enemy killed. */
    method EnemyPhase(now: int, dir: (real, real) -> (real, real)) returns (events: seq<TickRules.Event>)
      requires Valid()
      modifies pm, em, bm, cm, rng
      ensures Valid()
      ensures (World(), rng.pos, events) == TickRules.EnemyPhase(old(World()), now, dir, rng.draw, old(rng.pos))
    {
      ghost var w := World();
      cm.Update(now, rng);
      ghost var w1 := World();
      assert (w1, rng.pos) == TickRules.CoinStage(w, now, rng.draw, old(rng.pos));
      var kill := em.Update(pm, bm, cm, now, dir, rng);
      ghost var w2, p2 := World(), rng.pos;
      events := [];
      if kill.Some? {
        pm.HandlePlayerDeath(kill.value.victim, cm, now, rng);
        assert (World(), rng.pos) == TickRules.HandleDeath(w2, kill.value.victim, now, rng.draw, p2);
        events := [TickRules.Death(kill.value.victim, kill.value.killerName)];
      }
    }

    /** The bullet update, the settling of its kills, the enemy-kill messages and the pickups. */
    method BulletPhase(now: int) returns (events: seq<TickRules.Event>)
      requires Valid()
      modifies pm, em, bm, cm, rng
      ensures Valid()
      ensures (World(), rng.pos, events) == TickRules.BulletPhase(old(World()), now, rng.draw, old(rng.pos))
    {
      ghost var w := World();
      var killedPlayers, killedEnemies := bm.Update(pm, em);
      assert (World(), killedPlayers, killedEnemies) == TickRules.BulletUpdate(w);
      var killEvents := SettleKills(killedPlayers, now);
      var enemyEvents := EnemyKillEvents(pm.players, killedEnemies);
      PickupAll(now);
      events := killEvents + enemyEvents;
    }

    /**
     * The loop over the player kills of the bullet update: the bounty of a
     * kill with a truthy `shooterId`, the `playerKilled` message to the
     * shooter, the death of the victim and the `death` message to it.
     */
    method SettleKills(kills: seq<PlayerKill>, now: int) returns (events: seq<TickRules.Event>)
      requires Valid() && TickRules.VictimsKnown(World(), kills)
      modifies pm, cm, rng
      ensures Valid()
      ensures (World(), rng.pos, events) == TickRules.SettleKills(old(World()), kills, now, rng.draw, old(rng.pos))
    {
      ghost var w0, p0 := World(), rng.pos;
      events := [];
      var i := 0;
      while i < |kills|
        invariant 0 <= i <= |kills|
        invariant Valid()
        invariant (World(), rng.pos, events) == TickRules.SettleUpTo(w0, kills, i, now, rng.draw, p0)
      {
        var told := SettleKill(kills[i], now);
        events := events + told;
        i := i + 1;
      }
      TickRules.SettleUpToAll(w0, kills, now, rng.draw, p0);
    }

    /** One kill of the loop of `SettleKills`. */
    method SettleKill(k: PlayerKill, now: int) returns (told: seq<TickRules.Event>)
      requires Valid() && k.victim in pm.players.vals
      modifies pm, cm, rng
      ensures Valid()
      ensures (World(), rng.pos, told) == TickRules.SettleOne(old(World()), k, now, rng.draw, old(rng.pos))
    {
      ghost var w0 := World();
      told := [];
      var credited := k.shooterId.Some? && Truthy(k.shooterId.value);
      if credited {
        var shooter := k.shooterId.value;
        if shooter.PlayerRef? && shooter.pid in pm.players.vals {
          var s := pm.players.vals[shooter.pid];
          pm.players := pm.players.Put(shooter.pid, s.(coins := s.coins + pm.players.vals[k.victim].coins / 4));
        }
        told := [TickRules.PlayerKilled(shooter, k.victim, shooter)];
      }
      ghost var w1, p1 := World(), rng.pos;
      assert w1 == if credited then TickRules.Credit(w0, k.shooterId.value, k.victim) else w0;
      pm.HandlePlayerDeath(k.victim, cm, now, rng);
      ghost var d := TickRules.HandleDeath(w1, k.victim, now, rng.draw, p1);
      assert World() == d.0 && rng.pos == d.1;
      told := told + [TickRules.Death(k.victim, k.killerName)];
      TickRules.SettleOneOf(w0, k, now, rng.draw, p1, w1, d);
    }

    /** The loop over the enemy kills of the bullet update. */
    static method EnemyKillEvents(players: Table<PlayerId, Player>, kills: seq<EnemyKill>) returns (events: seq<TickRules.Event>)
      ensures events == TickRules.EnemyKillEvents(players, kills)
    {
      events := [];
      var i := 0;
      while i < |kills|
        invariant 0 <= i <= |kills|
        invariant events + TickRules.EnemyKillEvents(players, kills[i..]) == TickRules.EnemyKillEvents(players, kills)
      {
        var k := kills[i];
        TickRules.EnemyKillEventsAt(players, kills, i);
        TickRules.AppendAssoc(events, TickRules.EnemyKillEvent(players, k), TickRules.EnemyKillEvents(players, kills[i + 1..]));
        ghost var before := events;
        if k.shooterId.PlayerRef? && k.shooterId.pid in players.vals {
          events := events + [TickRules.EnemyKilled(k.shooterId.pid, k.enemyId)];
        }
        assert events == before + TickRules.EnemyKillEvent(players, k);
        i := i + 1;
      }
    }

    /**
     * The `meleeAttack` socket handler of the server: an attack by the
     * player `id`; when it is not refused, the attacker's socket is told of
     * each enemy it killed, and each player it killed dies and is told the
     * attacker's name.
     */
    method HandleMeleeAttack(id: PlayerId, now: int) returns (events: Option<seq<TickRules.Event>>)
      requires Valid()
      modifies pm, em, cm, rng
      ensures Valid()
      ensures var r := TickRules.HandleMelee(old(World()), id, now, rng.draw, old(rng.pos));
        && (r.None? ==> events.None? && World() == old(World()) && rng.pos == old(rng.pos))
        && (r.Some? ==> events == Some(r.value.2) && World() == r.value.0 && rng.pos == r.value.1)
    {
      ghost var w, p := World(), rng.pos;
      var outcome := pm.MeleeAttack(id, em, now);
      if outcome.None? {
        return None;
      }
      ghost var m := PlayerRules.MeleeAttack(w.players, w.enemies, id, now).value;
      PlayerRules.MeleeAttackFrame(w.players, w.enemies, id, now);
      ghost var w1 := World();
      assert w1 == w.(players := m.0, enemies := m.1);
      var enemyEvents := EnemyKilledAll(id, outcome.value.killedEnemies);
      var kills := TickRules.AsPlayerKills(outcome.value.killedPlayers);
      var deaths := SettleKills(kills, now);
      events := Some(enemyEvents + deaths);
      TickRules.HandleMeleeOf(w, id, now, rng.draw, p, m, World(), rng.pos, deaths);
    }

    /** The `enemyKilled` messages of the melee handler, one per killed enemy, in order. */
    static method EnemyKilledAll(to: PlayerId, ids: seq<EnemyId>) returns (events: seq<TickRules.Event>)
      ensures events == TickRules.EnemyKilledAll(to, ids)
    {
      events := [];
      var i := 0;
      while i < |ids|
        invariant 0 <= i <= |ids|
        invariant events + TickRules.EnemyKilledAll(to, ids[i..]) == TickRules.EnemyKilledAll(to, ids)
      {
        assert ids[i..][1..] == ids[i + 1..];
        events := events + [TickRules.EnemyKilled(to, ids[i])];
        i := i + 1;
      }
    }

    /** The `join` handler: registers the player and answers with its id and the world size. */
    method HandleJoin(id: PlayerId, name: Option<string>) returns (events: seq<TickRules.Event>)
      requires Valid()
      modifies pm, rng
      ensures Valid()
      ensures (World(), rng.pos) == TickRules.OnJoin(old(World()), id, name, rng.draw, old(rng.pos))
      ensures events == [TickRules.Joined(id, WORLD_SIZE)]
    {
      var player := pm.AddPlayer(id, name, rng);
      events := [TickRules.Joined(id, WORLD_SIZE)];
    }

    /** The `move` handler. */
    method HandleMove(id: PlayerId, dx: real, dy: real)
      requires Valid()
      modifies pm
      ensures Valid() && World() == TickRules.OnMove(old(World()), id, dx, dy)
    {
      pm.MovePlayer(id, dx, dy);
    }

    /** The `rangedAttack` handler. */
    method HandleRangedAttack(id: PlayerId, vx: real, vy: real, now: int)
      requires Valid()
      modifies pm, bm
      ensures Valid() && World() == TickRules.OnRanged(old(World()), id, vx, vy, now)
    {
      pm.RangedAttack(id, vx, vy, bm, now);
    }

    /** The `disconnect` handler. */
    method HandleDisconnect(id: PlayerId)
      requires Valid()
      modifies pm
      ensures Valid() && World() == TickRules.OnDisconnect(old(World()), id)
    {
      pm.RemovePlayer(id);
    }

    /** The respawn timer of `handlePlayerDeath` fires for `id`. */
    method HandleRespawn(id: PlayerId)
      requires Valid()
      modifies pm, rng
      ensures Valid() && (World(), rng.pos) == TickRules.OnRespawn(old(World()), id, rng.draw, old(rng.pos))
    {
      pm.Respawn(id, rng);
    }

    /** `getGameState()`: each manager's `getState()`, the values of its tables in order. */
    method GetGameState() returns (g: TickRules.GameState)
      requires Valid()
      ensures g == TickRules.State(World())
    {
      g := TickRules.GameState(pm.players.Values(), em.enemies.Values(), bm.bullets.Values(),
        cm.coins.Values(), cm.droppedCoins.Values());
    }

    /**
     * The server's wiring: a socket message reaches its handler, the respawn
     * timer reaches `HandleRespawn`, and the tick interval runs `update()`
     * and then broadcasts `getGameState()`.
     */
    method Step(input: TickRules.Input, now: int) returns (events: seq<TickRules.Event>, broadcast: Option<TickRules.GameState>)
      requires Valid()
      modifies pm, em, bm, cm, rng
      ensures Valid()
      ensures (World(), rng.pos, events, broadcast) == TickRules.Step(old(World()), input, now, rng.draw, old(rng.pos))
    {
      broadcast := None;
      events := [];
      match input
      case Join(id, name) =>
        events := HandleJoin(id, name);
      case Move(id, dx, dy) =>
        HandleMove(id, dx, dy);
      case MeleeAttack(id) =>
        var told := HandleMeleeAttack(id, now);
        if told.Some? {
          events := told.value;
        }
      case RangedAttack(id, vx, vy) =>
        HandleRangedAttack(id, vx, vy, now);
      case Disconnect(id) =>
        HandleDisconnect(id);
      case RespawnDue(id) =>
        HandleRespawn(id);
      case TickDue(dir) =>
        events := Update(now, dir);
        var g := GetGameState();
        broadcast := Some(g);
    }

    /** The pickup loop: every living player collects what lies in its reach. */
    method PickupAll(now: int)
      requires Valid()
      modifies pm, cm
      ensures Valid()
      ensures World() == TickRules.PickupAll(old(World()), old(pm.players.keys), now)
    {
      ghost var final := TickRules.PickupAll(World(), pm.players.keys, now);
      var playerIds := pm.players.keys;
      while playerIds != []
        invariant Valid()
        invariant TickRules.PickupAll(World(), playerIds, now) == final
        decreases |playerIds|
      {
        var playerId := playerIds[0];
        if playerId in pm.players.vals && pm.players.vals[playerId].hp > 0 {
          var p := cm.CheckPickup(pm.players.vals[playerId], now);
          pm.players := pm.players.Put(playerId, p);
        }
        playerIds := playerIds[1..];
      }
    }
  }
}
