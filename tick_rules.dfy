/**
 * One server tick, `GameLogic.update()`, as a function on the whole world:
 * the coin update, the enemy update, the death of a player killed by an
 * enemy, the bullet update, the settling of bullet kills, the enemy-kill
 * notifications and the coin pickup of every living player, in that order.
 * Also the melee handler of the socket server, which settles melee kills the
 * same way. Socket emits become a list of events.
 */
module TickRules {
  import opened Wrappers
  import opened Config
  import opened Random
  import opened Tables
  import opened Entities
  import EnemyRules
  import PlayerRules
  import BulletRules
  import CoinRules

  /** A message the server sends to one socket. */
  datatype Event =
    | Death(to: PlayerId, killerName: string)
    | PlayerKilled(room: Ref, victimId: PlayerId, killerId: Ref)
    | EnemyKilled(to: PlayerId, enemyId: EnemyId)
    | Joined(to: PlayerId, worldSize: real)

  /** The state of the four managers. */
  datatype World = World(
    players: Table<PlayerId, Player>,
    enemies: Table<EnemyId, Enemy>,
    nextEnemy: nat,
    bullets: Table<BulletId, Bullet>,
    nextBullet: nat,
    coins: Table<CoinId, Coin>,
    nextCoin: nat,
    lastCoinSpawn: int,
    drops: Table<CoinId, DroppedCoin>,
    nextDrop: nat)

  /** Every table is a well-formed map and every id counter is above the ids it handed out. */
  ghost predicate WorldValid(w: World) {
    && w.players.Valid() && w.enemies.Valid() && w.bullets.Valid() && w.coins.Valid() && w.drops.Valid()
    && EnemyRules.IdsBelow(w.enemies, w.nextEnemy) && EnemyRules.IdsBelow(w.bullets, w.nextBullet)
    && EnemyRules.IdsBelow(w.coins, w.nextCoin) && EnemyRules.IdsBelow(w.drops, w.nextDrop)
  }

  /**
   * What every tick keeps: the world is well formed, players and enemies are
   * inside their bounds, at most `COIN_MAX_AMBIENT` ambient coins lie about,
   * and no bullet heals.
   */
  ghost predicate Invariant(w: World) {
    && WorldValid(w)
    && PlayerRules.AllInBounds(w.players) && EnemyRules.AllInBounds(w.enemies)
    && w.coins.Size() <= CoinRules.COIN_MAX_AMBIENT
    && BulletRules.DamageNonNegative(w.bullets)
  }

  /** The players' table keeps its keys, in order. */
  ghost predicate SamePlayers(w: World, u: World) {
    u.players.keys == w.players.keys && u.players.vals.Keys == w.players.vals.Keys
  }

  /** A player at 0 hp or below in `w` is still so in `u`. */
  ghost predicate DeadStayDead(w: World, u: World) {
    forall k :: k in w.players.vals && w.players.vals[k].hp <= 0 ==> k in u.players.vals && u.players.vals[k].hp <= 0
  }

  /**
   * The world `new GameLogic(io)` starts from: no players, bullets or coins,
   * every counter at 1, and `ENEMIES.MAX_COUNT` enemies spawned from `pos`.
   * It satisfies the invariant every tick keeps.
   */
  function Initial(draw: nat -> Roll, pos: nat): (r: (World, nat))
    ensures Invariant(r.0)
    ensures r.0.players.Size() == 0 && r.0.enemies.Size() == ENEMY_MAX_COUNT && r.1 == pos + 3 * ENEMY_MAX_COUNT
  {
    var none: Table<EnemyId, Enemy> := Empty();
    assert EnemyRules.AllInBounds(none) && none.Size() == 0;
    var s := EnemyRules.SpawnMany(none, 1, draw, pos, ENEMY_MAX_COUNT);
    assert s.0.Size() == ENEMY_MAX_COUNT;
    (WithEnemies(s.0, s.1), s.2)
  }

  /** `Initial` from the result of the spawning. */
  lemma InitialOf(draw: nat -> Roll, pos: nat, t: Table<EnemyId, Enemy>, nextEnemy: nat, pos1: nat)
    requires (t, nextEnemy, pos1) == EnemyRules.SpawnMany(Empty(), 1, draw, pos, ENEMY_MAX_COUNT)
    ensures Initial(draw, pos) == (World(Empty(), t, nextEnemy, Empty(), 1, Empty(), 1, 0, Empty(), 1), pos1)
  {
  }

  /** No players, bullets or coins, every other counter at 1, and the enemies `t`. */
  function WithEnemies(t: Table<EnemyId, Enemy>, nextEnemy: nat): (w: World)
    requires t.Valid() && EnemyRules.IdsBelow(t, nextEnemy) && EnemyRules.AllInBounds(t)
    ensures Invariant(w) && w.players.Size() == 0 && w.enemies == t
  {
    World(Empty(), t, nextEnemy, Empty(), 1, Empty(), 1, 0, Empty(), 1)
  }

  // ---------------------------------------------------------------------
  // The stages of a tick

  /** `coinManager.update()`. */
  function CoinStage(w: World, now: int, draw: nat -> Roll, pos: nat): (r: (World, nat))
    requires WorldValid(w)
    ensures WorldValid(r.0)
    ensures r.0 == w.(coins := r.0.coins, nextCoin := r.0.nextCoin, lastCoinSpawn := r.0.lastCoinSpawn)
  {
    var c := CoinRules.Tick(CoinRules.CoinTick(w.coins, w.nextCoin, w.lastCoinSpawn, pos), now, draw);
    (w.(coins := c.coins, nextCoin := c.nextId, lastCoinSpawn := c.lastSpawn), c.pos)
  }

  /**
   * `enemyManager.update(players, bulletManager, coinManager)`: the pass over
   * the enemies, with the bullets they fire and the coins the dead drop; when
   * the pass ends without a kill and fewer than `ENEMIES.MIN_COUNT` enemies
   * remain, one enemy is spawned. A kill is reported with its victim.
   */
  function EnemyUpdate(w: World, now: int, dir: (real, real) -> (real, real), draw: nat -> Roll, pos: nat)
    : (r: (World, nat, Option<Kill>))
    requires WorldValid(w)
    ensures WorldValid(r.0) && SamePlayers(w, r.0)
    ensures r.0.coins == w.coins && r.0.nextCoin == w.nextCoin && r.0.lastCoinSpawn == w.lastCoinSpawn
    ensures r.2.Some? ==> r.2.value.victim in r.0.players.vals
  {
    var pass := EnemyRules.RunEnemies(EnemyRules.EnemyPass(w.enemies, w.players, [], []), w.enemies.keys, now, dir);
    EnemyRules.RunShrinksAndShootsHarmlessly(EnemyRules.EnemyPass(w.enemies, w.players, [], []), w.enemies.keys, now, dir);
    EnemyRules.RunKillIsDead(EnemyRules.EnemyPass(w.enemies, w.players, [], []), w.enemies.keys, now, dir);
    var d := CoinRules.EnemyDrops(CoinRules.Drops(w.drops, w.nextDrop, pos), pass.0.drops, now, draw);
    var b := BulletRules.CreateAll(w.bullets, w.nextBullet, pass.0.shots, now);
    var w1 := w.(players := pass.0.players, enemies := pass.0.enemies, bullets := b.0, nextBullet := b.1,
                 drops := d.coins, nextDrop := d.nextId);
    if pass.1.None? && pass.0.enemies.Size() < ENEMY_MIN_COUNT then
      var s := EnemyRules.Spawn(w1.enemies, w1.nextEnemy, draw, d.pos);
      (w1.(enemies := s.0, nextEnemy := s.1), s.2, None)
    else (w1, d.pos, pass.1)
  }

  /**
   * `EnemyUpdate` from the results of its parts: the pass over the enemies
   * left `st` and reported `kill`, the drops left `d`, and the bullet
   * creations left `(bullets, nextBullet)`.
   */
  lemma EnemyUpdateOf(w: World, now: int, dir: (real, real) -> (real, real), draw: nat -> Roll, pos: nat,
                      st: EnemyRules.EnemyPass, kill: Option<Kill>, d: CoinRules.Drops, bullets: Table<BulletId, Bullet>, nextBullet: nat)
    requires WorldValid(w)
    requires (st, kill) == EnemyRules.RunEnemies(EnemyRules.EnemyPass(w.enemies, w.players, [], []), w.enemies.keys, now, dir)
    requires d == CoinRules.EnemyDrops(CoinRules.Drops(w.drops, w.nextDrop, pos), st.drops, now, draw)
    requires (bullets, nextBullet) == BulletRules.CreateAll(w.bullets, w.nextBullet, st.shots, now)
    requires st.enemies.Valid() && EnemyRules.IdsBelow(st.enemies, w.nextEnemy)
    ensures var w1 := w.(players := st.players, enemies := st.enemies, bullets := bullets, nextBullet := nextBullet,
                         drops := d.coins, nextDrop := d.nextId);
      EnemyUpdate(w, now, dir, draw, pos)
      == if kill.None? && st.enemies.Size() < ENEMY_MIN_COUNT then
           var s := EnemyRules.Spawn(st.enemies, w.nextEnemy, draw, d.pos);
           (w1.(enemies := s.0, nextEnemy := s.1), s.2, None)
         else (w1, d.pos, kill)
  {
  }

  /**
   * The end of `update`: when no turn killed and fewer than `MIN_COUNT`
   * enemies remain, exactly one enemy is spawned under the next id;
   * otherwise the table is the one the pass left and the counter stays.
   * The kill reported is the pass's own.
   */
  lemma EnemyUpdateRepopulates(w: World, now: int, dir: (real, real) -> (real, real), draw: nat -> Roll, pos: nat)
    requires WorldValid(w)
    ensures var pass := EnemyRules.RunEnemies(EnemyRules.EnemyPass(w.enemies, w.players, [], []), w.enemies.keys, now, dir);
      var r := EnemyUpdate(w, now, dir, draw, pos);
      && r.2 == pass.1
      && r.0.players == pass.0.players
      && (pass.1.None? && pass.0.enemies.Size() < ENEMY_MIN_COUNT ==>
            && r.0.nextEnemy == w.nextEnemy + 1
            && r.0.enemies.keys == pass.0.enemies.keys + [w.nextEnemy]
            && w.nextEnemy !in pass.0.enemies.vals
            && r.0.enemies.vals.Keys == pass.0.enemies.vals.Keys + {w.nextEnemy}
            && (forall k :: k in pass.0.enemies.vals ==> r.0.enemies.vals[k] == pass.0.enemies.vals[k])
            && r.0.enemies.Size() == pass.0.enemies.Size() + 1)
      && (!(pass.1.None? && pass.0.enemies.Size() < ENEMY_MIN_COUNT) ==>
            r.0.enemies == pass.0.enemies && r.0.nextEnemy == w.nextEnemy)
  {
    var st := EnemyRules.EnemyPass(w.enemies, w.players, [], []);
    EnemyRules.RunShrinksAndShootsHarmlessly(st, w.enemies.keys, now, dir);
  }

  /**
   * `playerManager.handlePlayerDeath(player, coinManager)` within a tick:
   * hp becomes 0 and half the player's coins, rounded down, are dropped
   * around it. The delayed respawn is a separate operation.
   */
  function HandleDeath(w: World, victim: PlayerId, now: int, draw: nat -> Roll, pos: nat): (r: (World, nat))
    requires WorldValid(w) && victim in w.players.vals
    ensures WorldValid(r.0) && SamePlayers(w, r.0)
    ensures r.0.players.vals == w.players.vals[victim := PlayerRules.Died(w.players.vals[victim])]
    ensures r.0 == w.(players := r.0.players, drops := r.0.drops, nextDrop := r.0.nextDrop)
    ensures r.0.drops.Size() == w.drops.Size() + w.players.vals[victim].coins / 2
  {
    var p := w.players.vals[victim];
    var d := CoinRules.PlayerDrops(CoinRules.Drops(w.drops, w.nextDrop, pos), p, now, draw);
    (w.(players := w.players.Put(victim, PlayerRules.Died(p)), drops := d.coins, nextDrop := d.nextId), d.pos)
  }

  /** Every kill of `kills` names a registered player. */
  ghost predicate VictimsKnown(w: World, kills: seq<PlayerKill>) {
    forall j :: 0 <= j < |kills| ==> kills[j].victim in w.players.vals
  }

  /** `bulletManager.update(players, enemyManager)`: the pass over the bullets and the kills it reports. */
  function BulletUpdate(w: World): (r: (World, seq<PlayerKill>, seq<EnemyKill>))
    requires WorldValid(w)
    ensures WorldValid(r.0) && SamePlayers(w, r.0) && VictimsKnown(r.0, r.1)
    ensures r.0 == w.(players := r.0.players, enemies := r.0.enemies, bullets := r.0.bullets)
  {
    var st := BulletRules.BulletPass(w.bullets, w.players, w.enemies, [], []);
    var p := BulletRules.RunBullets(st, w.bullets.keys);
    BulletRules.RunKillsAreDead(st, w.bullets.keys);
    BulletRules.RunKeepsKeys(st, w.bullets.keys);
    BulletRules.RunKeepsBulletsAndEnemies(st, w.bullets.keys);
    (w.(players := p.players, enemies := p.enemies, bullets := p.bullets), p.killedPlayers, p.killedEnemies)
  }

  /**
   * The bounty of a bullet kill: when `shooterId` is truthy and names a
   * registered player, that player gains a quarter, rounded down, of the
   * victim's coins. The notification goes out whether or not the shooter is registered.
   */
  function Credit(w: World, shooter: Ref, victim: PlayerId): (r: World)
    requires WorldValid(w) && victim in w.players.vals
    ensures WorldValid(r) && SamePlayers(w, r) && r == w.(players := r.players)
    ensures shooter.PlayerRef? && shooter.pid in w.players.vals ==>
      r.players.vals == w.players.vals[shooter.pid :=
        w.players.vals[shooter.pid].(coins := w.players.vals[shooter.pid].coins + w.players.vals[victim].coins / 4)]
    ensures !(shooter.PlayerRef? && shooter.pid in w.players.vals) ==> r == w
  {
    if shooter.PlayerRef? && shooter.pid in w.players.vals then
      var s := w.players.vals[shooter.pid];
      w.(players := w.players.Put(shooter.pid, s.(coins := s.coins + w.players.vals[victim].coins / 4)))
    else w
  }

  /**
   * The loop over `bulletResults.killedPlayers`: for each kill with a
   * truthy `shooterId` the bounty is paid and the shooter told; then the
   * victim dies and is told who killed it.
   */
  function SettleKills(w: World, kills: seq<PlayerKill>, now: int, draw: nat -> Roll, pos: nat): (r: (World, nat, seq<Event>))
    requires WorldValid(w) && VictimsKnown(w, kills)
    ensures WorldValid(r.0) && SamePlayers(w, r.0)
    decreases |kills|
  {
    if kills == [] then (w, pos, [])
    else
      var t := SettleOne(w, kills[0], now, draw, pos);
      var rest := SettleKills(t.0, kills[1..], now, draw, t.1);
      (rest.0, rest.1, t.2 + rest.2)
  }

  /** The state after the first `n` kills of `kills`, and the events sent so far: the loop as it runs. */
  function SettleUpTo(w: World, kills: seq<PlayerKill>, n: nat, now: int, draw: nat -> Roll, pos: nat): (r: (World, nat, seq<Event>))
    requires WorldValid(w) && VictimsKnown(w, kills) && n <= |kills|
    ensures WorldValid(r.0) && SamePlayers(w, r.0)
    decreases n
  {
    if n == 0 then (w, pos, [])
    else
      var s := SettleUpTo(w, kills, n - 1, now, draw, pos);
      var t := SettleOne(s.0, kills[n - 1], now, draw, s.1);
      (t.0, t.1, s.2 + t.2)
  }

  /** The loop over `bulletResults.killedEnemies`: the shooter is told only when it is a registered player. */
  function EnemyKillEvents(players: Table<PlayerId, Player>, kills: seq<EnemyKill>): (r: seq<Event>)
    ensures |r| <= |kills|
    decreases |kills|
  {
    if kills == [] then [] else EnemyKillEvent(players, kills[0]) + EnemyKillEvents(players, kills[1..])
  }

  /** The message of one enemy kill: to the shooter when it is a registered player, otherwise none. */
  function EnemyKillEvent(players: Table<PlayerId, Player>, k: EnemyKill): (r: seq<Event>)
    ensures |r| <= 1
  {
    if k.shooterId.PlayerRef? && k.shooterId.pid in players.vals then [EnemyKilled(k.shooterId.pid, k.enemyId)] else []
  }

  /** The events of the kills from `i` on are those of kill `i`, then those of the rest. A proof aid that unfolds `EnemyKillEvents` once. */
  lemma EnemyKillEventsAt(players: Table<PlayerId, Player>, kills: seq<EnemyKill>, i: nat)
    requires i < |kills|
    ensures EnemyKillEvents(players, kills[i..]) == EnemyKillEvent(players, kills[i]) + EnemyKillEvents(players, kills[i + 1..])
  {
    assert kills[i..][1..] == kills[i + 1..];
  }

  /** The pickup loop over the players `ks`: each living one collects what is in its reach. */
  function PickupAll(w: World, ks: seq<PlayerId>, now: int): (r: World)
    requires WorldValid(w)
    ensures WorldValid(r) && SamePlayers(w, r)
    ensures r == w.(players := r.players, coins := r.coins, drops := r.drops)
    decreases |ks|
  {
    if ks == [] then w
    else if ks[0] in w.players.vals && w.players.vals[ks[0]].hp > 0 then
      var (c, d, p) := CoinRules.CheckPickup(w.coins, w.drops, w.players.vals[ks[0]], now);
      CoinRules.PickupShrinks(w.coins, w.drops, w.players.vals[ks[0]], now);
      PickupAll(w.(players := w.players.Put(ks[0], p), coins := c, drops := d), ks[1..], now)
    else PickupAll(w, ks[1..], now)
  }

  /** The first half of a tick: coins, enemies, and the death of a player an enemy killed. */
  function EnemyPhase(w: World, now: int, dir: (real, real) -> (real, real), draw: nat -> Roll, pos: nat)
    : (r: (World, nat, seq<Event>))
    requires WorldValid(w)
    ensures WorldValid(r.0) && SamePlayers(w, r.0)
  {
    var (w1, p1) := CoinStage(w, now, draw, pos);
    var (w2, p2, kill) := EnemyUpdate(w1, now, dir, draw, p1);
    if kill.Some? then
      var (u, p) := HandleDeath(w2, kill.value.victim, now, draw, p2);
      (u, p, [Death(kill.value.victim, kill.value.killerName)])
    else (w2, p2, [])
  }

  /**
   * The messages of the first half of a tick: one `death` to the player the
   * enemy pass killed, carrying the pass's killer name, and none when the
   * pass killed nobody.
   */
  lemma EnemyPhaseMessages(w: World, now: int, dir: (real, real) -> (real, real), draw: nat -> Roll, pos: nat)
    requires WorldValid(w)
    ensures var w1 := CoinStage(w, now, draw, pos).0;
      var pass := EnemyRules.RunEnemies(EnemyRules.EnemyPass(w1.enemies, w1.players, [], []), w1.enemies.keys, now, dir);
      var r := EnemyPhase(w, now, dir, draw, pos);
      r.2 == if pass.1.Some? then [Death(pass.1.value.victim, pass.1.value.killerName)] else []
  {
    var (w1, p1) := CoinStage(w, now, draw, pos);
    EnemyUpdateRepopulates(w1, now, dir, draw, p1);
  }

  /** The second half of a tick: bullets, the kills they made, and pickup. */
  function BulletPhase(w: World, now: int, draw: nat -> Roll, pos: nat): (r: (World, nat, seq<Event>))
    requires WorldValid(w)
    ensures WorldValid(r.0) && SamePlayers(w, r.0)
  {
    var (w4, playerKills, enemyKills) := BulletUpdate(w);
    var (w5, p5, killEvents) := SettleKills(w4, playerKills, now, draw, pos);
    var enemyEvents := EnemyKillEvents(w5.players, enemyKills);
    (PickupAll(w5, w5.players.keys, now), p5, killEvents + enemyEvents)
  }

  /**
   * `GameLogic.update()`: the stages in the order the source runs them,
   * threading the random stream from `pos`; `dir` is the normalisation of
   * the enemies' aim and step. Returns the new world, the new stream
   * position and the events sent.
   */
  function Tick(w: World, now: int, dir: (real, real) -> (real, real), draw: nat -> Roll, pos: nat)
    : (r: (World, nat, seq<Event>))
    requires WorldValid(w)
    ensures WorldValid(r.0) && SamePlayers(w, r.0)
  {
    var (w3, p3, deathEvents) := EnemyPhase(w, now, dir, draw, pos);
    var (w6, p6, laterEvents) := BulletPhase(w3, now, draw, p3);
    (w6, p6, deathEvents + laterEvents)
  }

  // ---------------------------------------------------------------------
  // What a tick keeps

  lemma CoinStageKeeps(w: World, now: int, draw: nat -> Roll, pos: nat)
    requires Invariant(w)
    ensures Invariant(CoinStage(w, now, draw, pos).0)
  {
    CoinRules.TickKeepsAmbientBound(CoinRules.CoinTick(w.coins, w.nextCoin, w.lastCoinSpawn, pos), now, draw);
  }

  /** The enemy update keeps the invariant, and players only lose hp in it. */
  lemma EnemyUpdateKeeps(w: World, now: int, dir: (real, real) -> (real, real), draw: nat -> Roll, pos: nat)
    requires Invariant(w)
    ensures var r := EnemyUpdate(w, now, dir, draw, pos).0;
      Invariant(r) && DeadStayDead(w, r)
  {
    var st := EnemyRules.EnemyPass(w.enemies, w.players, [], []);
    var pass := EnemyRules.RunEnemies(st, w.enemies.keys, now, dir);
    EnemyRules.RunOnlyDamagesPlayers(st, w.enemies.keys, now, dir);
    EnemyRules.RunKeepsBounds(st, w.enemies.keys, now, dir);
    EnemyRules.RunShrinksAndShootsHarmlessly(st, w.enemies.keys, now, dir);
    BulletRules.CreateAllHarmless(w.bullets, w.nextBullet, pass.0.shots, now);
    assert PlayerRules.AllInBounds(pass.0.players) by {
      forall k | k in pass.0.players.vals ensures PlayerRules.PlayerInBounds(pass.0.players.vals[k]) {
        assert k in w.players.vals;
      }
    }
  }

  lemma HandleDeathKeeps(w: World, victim: PlayerId, now: int, draw: nat -> Roll, pos: nat)
    requires Invariant(w) && victim in w.players.vals
    ensures var r := HandleDeath(w, victim, now, draw, pos).0;
      Invariant(r) && DeadStayDead(w, r) && r.players.vals[victim].hp == 0
  {
  }

  /** The bullet update keeps the invariant, and players only lose hp in it. */
  lemma BulletUpdateKeeps(w: World)
    requires Invariant(w)
    ensures var r := BulletUpdate(w).0;
      Invariant(r) && DeadStayDead(w, r)
  {
    var st := BulletRules.BulletPass(w.bullets, w.players, w.enemies, [], []);
    BulletRules.RunOnlyDamagesPlayers(st, w.bullets.keys);
    BulletRules.RunKeepsBulletsAndEnemies(st, w.bullets.keys);
  }

  /** The players named by the `death` events of `evs`, in order. */
  ghost function DeathsOf(evs: seq<Event>): seq<PlayerId>
    decreases |evs|
  {
    if evs == [] then [] else (if evs[0].Death? then [evs[0].to] else []) + DeathsOf(evs[1..])
  }

  lemma {:induction false} DeathsOfAppend(a: seq<Event>, b: seq<Event>)
    ensures DeathsOf(a + b) == DeathsOf(a) + DeathsOf(b)
    decreases |a|
  {
    if a == [] {
      assert a + b == b;
    } else {
      assert (a + b)[0] == a[0];
      assert (a + b)[1..] == a[1..] + b;
      DeathsOfAppend(a[1..], b);
    }
  }

  /** The victims of `kills`, in order. */
  ghost function VictimsOf(kills: seq<PlayerKill>): seq<PlayerId>
    decreases |kills|
  {
    if kills == [] then [] else [kills[0].victim] + VictimsOf(kills[1..])
  }

  /** One iteration of the loop over the player kills of a bullet update. */
  function SettleOne(w: World, k: PlayerKill, now: int, draw: nat -> Roll, pos: nat): (r: (World, nat, seq<Event>))
    requires WorldValid(w) && k.victim in w.players.vals
    ensures WorldValid(r.0) && SamePlayers(w, r.0)
  {
    var credited := k.shooterId.Some? && Truthy(k.shooterId.value);
    var w1 := if credited then Credit(w, k.shooterId.value, k.victim) else w;
    var told := if credited then [PlayerKilled(k.shooterId.value, k.victim, k.shooterId.value)] else [];
    var d := HandleDeath(w1, k.victim, now, draw, pos);
    (d.0, d.1, told + [Death(k.victim, k.killerName)])
  }

  /** `SettleOne` from the world after the bounty, `w1`, and the outcome `d` of the death. */
  lemma SettleOneOf(w: World, k: PlayerKill, now: int, draw: nat -> Roll, pos: nat, w1: World, d: (World, nat))
    requires WorldValid(w) && k.victim in w.players.vals
    requires w1 == if k.shooterId.Some? && Truthy(k.shooterId.value) then Credit(w, k.shooterId.value, k.victim) else w
    requires d == HandleDeath(w1, k.victim, now, draw, pos)
    ensures SettleOne(w, k, now, draw, pos)
         == (d.0, d.1, (if k.shooterId.Some? && Truthy(k.shooterId.value) then [PlayerKilled(k.shooterId.value, k.victim, k.shooterId.value)] else [])
                       + [Death(k.victim, k.killerName)])
  {
  }

  /** Settling one kill keeps the invariant, kills its victim and tells only the victim of a death. */
  lemma SettleOneKeeps(w: World, k: PlayerKill, now: int, draw: nat -> Roll, pos: nat)
    requires Invariant(w) && k.victim in w.players.vals
    ensures var r := SettleOne(w, k, now, draw, pos);
      && Invariant(r.0) && DeadStayDead(w, r.0)
      && r.0.players.vals[k.victim].hp <= 0
      && DeathsOf(r.2) == [k.victim]
  {
    var credited := k.shooterId.Some? && Truthy(k.shooterId.value);
    var w1 := if credited then Credit(w, k.shooterId.value, k.victim) else w;
    var told := if credited then [PlayerKilled(k.shooterId.value, k.victim, k.shooterId.value)] else [];
    assert Invariant(w1) && DeadStayDead(w, w1);
    HandleDeathKeeps(w1, k.victim, now, draw, pos);
    DeathsOfAppend(told, [Death(k.victim, k.killerName)]);
    assert DeathsOf([Death(k.victim, k.killerName)]) == [k.victim];
  }

  /**
   * The bounty of one bullet kill: with a truthy shooter id naming a
   * registered player other than the victim, that player alone gains a
   * quarter, rounded down, of the victim's coins; without one, nobody else
   * changes. The victim is dead.
   */
  lemma SettleOneCredit(w: World, k: PlayerKill, now: int, draw: nat -> Roll, pos: nat)
    requires WorldValid(w) && k.victim in w.players.vals
    ensures var r := SettleOne(w, k, now, draw, pos);
      var paid := k.shooterId.Some? && Truthy(k.shooterId.value) && k.shooterId.value.PlayerRef?;
      && r.0.players.vals[k.victim].hp == 0
      && forall q :: q in w.players.vals && q != k.victim ==>
           r.0.players.vals[q]
           == if paid && k.shooterId.value.pid == q
              then w.players.vals[q].(coins := w.players.vals[q].coins + w.players.vals[k.victim].coins / 4)
              else w.players.vals[q]
  {
  }

  /** Settling kills keeps the invariant, and every victim is dead afterwards. */
  lemma {:induction false} SettleKillsKeeps(w: World, kills: seq<PlayerKill>, now: int, draw: nat -> Roll, pos: nat)
    requires Invariant(w) && VictimsKnown(w, kills)
    ensures var r := SettleKills(w, kills, now, draw, pos);
      && Invariant(r.0) && DeadStayDead(w, r.0)
      && forall j :: 0 <= j < |kills| ==> r.0.players.vals[kills[j].victim].hp <= 0
    decreases |kills|
  {
    if kills != [] {
      var (w2, p2, told) := SettleOne(w, kills[0], now, draw, pos);
      SettleOneKeeps(w, kills[0], now, draw, pos);
      assert VictimsKnown(w2, kills[1..]);
      SettleKillsKeeps(w2, kills[1..], now, draw, p2);
      var w3 := SettleKills(w2, kills[1..], now, draw, p2).0;
      forall j | 0 <= j < |kills| ensures w3.players.vals[kills[j].victim].hp <= 0 {
        if j > 0 {
          assert kills[j] == kills[1..][j - 1];
        }
      }
    }
  }

  /**
   * Settling the kills one after the other from the front, as the loop does,
   * ends where `SettleKills` ends.
   */
  lemma SettleUpToAll(w: World, kills: seq<PlayerKill>, now: int, draw: nat -> Roll, pos: nat)
    requires WorldValid(w) && VictimsKnown(w, kills)
    ensures SettleUpTo(w, kills, |kills|, now, draw, pos) == SettleKills(w, kills, now, draw, pos)
  {
    var s := SettleUpTo(w, kills, |kills|, now, draw, pos);
    SettleUpToRest(w, kills, |kills|, now, draw, pos);
    assert kills[|kills|..] == [];
    assert s.2 + [] == s.2;
  }

  /** The loop stopped at state `s` and then run over the kills `rest`, with the events of both parts. */
  function SettleRest(s: (World, nat, seq<Event>), rest: seq<PlayerKill>, now: int, draw: nat -> Roll): (World, nat, seq<Event>)
    requires WorldValid(s.0) && VictimsKnown(s.0, rest)
  {
    var r := SettleKills(s.0, rest, now, draw, s.1);
    (r.0, r.1, s.2 + r.2)
  }

  /** After `n` kills, settling the rest completes `SettleKills`. */
  lemma {:induction false} SettleUpToRest(w: World, kills: seq<PlayerKill>, n: nat, now: int, draw: nat -> Roll, pos: nat)
    requires WorldValid(w) && VictimsKnown(w, kills) && n <= |kills|
    ensures VictimsKnown(SettleUpTo(w, kills, n, now, draw, pos).0, kills[n..])
    ensures SettleKills(w, kills, now, draw, pos) == SettleRest(SettleUpTo(w, kills, n, now, draw, pos), kills[n..], now, draw)
    decreases n
  {
    if n == 0 {
      assert kills[n..] == kills;
      assert [] + SettleKills(w, kills, now, draw, pos).2 == SettleKills(w, kills, now, draw, pos).2;
    } else {
      SettleUpToRest(w, kills, n - 1, now, draw, pos);
      SettleUpToStep(w, kills, n, now, draw, pos);
    }
  }

  /** One more kill settled from the front leaves the same remainder to settle. */
  lemma SettleUpToStep(w: World, kills: seq<PlayerKill>, n: nat, now: int, draw: nat -> Roll, pos: nat)
    requires WorldValid(w) && VictimsKnown(w, kills) && 0 < n <= |kills|
    ensures VictimsKnown(SettleUpTo(w, kills, n - 1, now, draw, pos).0, kills[n - 1..])
    ensures VictimsKnown(SettleUpTo(w, kills, n, now, draw, pos).0, kills[n..])
    ensures SettleRest(SettleUpTo(w, kills, n - 1, now, draw, pos), kills[n - 1..], now, draw)
         == SettleRest(SettleUpTo(w, kills, n, now, draw, pos), kills[n..], now, draw)
  {
    var s0 := SettleUpTo(w, kills, n - 1, now, draw, pos);
    var s := SettleUpTo(w, kills, n, now, draw, pos);
    VictimsKnownSuffix(w, s0.0, kills, n - 1);
    VictimsKnownSuffix(w, s.0, kills, n);
    var t := SettleOne(s0.0, kills[n - 1], now, draw, s0.1);
    assert s == (t.0, t.1, s0.2 + t.2);
    var ks := kills[n - 1..];
    assert ks != [] && ks[0] == kills[n - 1] && ks[1..] == kills[n..];
    var rest := SettleKills(s.0, kills[n..], now, draw, s.1);
    var rest0 := SettleKills(s0.0, ks, now, draw, s0.1);
    assert rest0 == (rest.0, rest.1, t.2 + rest.2);
    AppendAssoc(s0.2, t.2, rest.2);
  }

  /** A world with the same players as `w` still knows every victim of a suffix of the kills. */
  lemma VictimsKnownSuffix(w: World, u: World, kills: seq<PlayerKill>, n: nat)
    requires VictimsKnown(w, kills) && SamePlayers(w, u) && n <= |kills|
    ensures VictimsKnown(u, kills[n..])
  {
    forall j | 0 <= j < |kills[n..]| ensures kills[n..][j].victim in u.players.vals {
      assert kills[n..][j] == kills[n + j];
    }
  }

  lemma AppendAssoc<T>(a: seq<T>, b: seq<T>, c: seq<T>)
    ensures (a + b) + c == a + (b + c)
  {
  }

  /** Every victim is told of its death exactly once, in the order of the kills. */
  lemma {:induction false} SettleKillsTellsVictims(w: World, kills: seq<PlayerKill>, now: int, draw: nat -> Roll, pos: nat)
    requires Invariant(w) && VictimsKnown(w, kills)
    ensures DeathsOf(SettleKills(w, kills, now, draw, pos).2) == VictimsOf(kills)
    decreases |kills|
  {
    if kills != [] {
      var (w2, p2, told) := SettleOne(w, kills[0], now, draw, pos);
      SettleOneKeeps(w, kills[0], now, draw, pos);
      assert VictimsKnown(w2, kills[1..]);
      SettleKillsTellsVictims(w2, kills[1..], now, draw, p2);
      DeathsOfAppend(told, SettleKills(w2, kills[1..], now, draw, p2).2);
    }
  }

  /**
   * The messages of the kill loop, kill by kill: a `playerKilled` to the
   * shooter when its id is truthy, then a `death` to the victim.
   */
  ghost function KillMessages(kills: seq<PlayerKill>): seq<Event>
    decreases |kills|
  {
    if kills == [] then []
    else
      var k := kills[0];
      (if k.shooterId.Some? && Truthy(k.shooterId.value) then [PlayerKilled(k.shooterId.value, k.victim, k.shooterId.value)] else [])
      + [Death(k.victim, k.killerName)] + KillMessages(kills[1..])
  }

  /**
   * The messages of the kill loop depend on the kills alone: a shooter is
   * told of its kill whether or not it is still registered.
   */
  lemma {:induction false} SettleKillsMessages(w: World, kills: seq<PlayerKill>, now: int, draw: nat -> Roll, pos: nat)
    requires WorldValid(w) && VictimsKnown(w, kills)
    ensures SettleKills(w, kills, now, draw, pos).2 == KillMessages(kills)
    decreases |kills|
  {
    if kills != [] {
      var t := SettleOne(w, kills[0], now, draw, pos);
      assert VictimsKnown(t.0, kills[1..]) by {
        forall j | 0 <= j < |kills[1..]| ensures kills[1..][j].victim in t.0.players.vals {
          assert kills[1..][j] == kills[j + 1];
        }
      }
      SettleKillsMessages(t.0, kills[1..], now, draw, t.1);
    }
  }

  /** The `playerKilled` messages of `evs`, in order. */
  ghost function KilledOf(evs: seq<Event>): seq<Event>
    decreases |evs|
  {
    if evs == [] then [] else (if evs[0].PlayerKilled? then [evs[0]] else []) + KilledOf(evs[1..])
  }

  lemma {:induction false} KilledOfAppend(a: seq<Event>, b: seq<Event>)
    ensures KilledOf(a + b) == KilledOf(a) + KilledOf(b)
    decreases |a|
  {
    if a == [] {
      assert a + b == b;
    } else {
      assert (a + b)[0] == a[0];
      assert (a + b)[1..] == a[1..] + b;
      KilledOfAppend(a[1..], b);
    }
  }

  /** One report per kill with a truthy shooter id, to that shooter, naming the victim and the shooter. */
  ghost function ShooterReports(kills: seq<PlayerKill>): seq<Event>
    decreases |kills|
  {
    if kills == [] then []
    else
      var k := kills[0];
      (if k.shooterId.Some? && Truthy(k.shooterId.value) then [PlayerKilled(k.shooterId.value, k.victim, k.shooterId.value)] else [])
      + ShooterReports(kills[1..])
  }

  /**
   * Of the kill loop's messages, the `playerKilled` ones are one per kill
   * with a truthy shooter id, and the `death` ones name every victim in order.
   */
  lemma KillMessagesReport(kills: seq<PlayerKill>)
    ensures KilledOf(KillMessages(kills)) == ShooterReports(kills)
    ensures DeathsOf(KillMessages(kills)) == VictimsOf(kills)
  {
    KillMessagesKilled(kills);
    KillMessagesDeaths(kills);
  }

  lemma {:induction false} KillMessagesKilled(kills: seq<PlayerKill>)
    ensures KilledOf(KillMessages(kills)) == ShooterReports(kills)
    decreases |kills|
  {
    if kills != [] {
      var k := kills[0];
      var death := [Death(k.victim, k.killerName)];
      var rest := KillMessages(kills[1..]);
      KillMessagesKilled(kills[1..]);
      KilledOfAppend(death, rest);
      assert KilledOf(death) == [] by {
        assert death[1..] == [];
      }
      if k.shooterId.Some? && Truthy(k.shooterId.value) {
        var told := [PlayerKilled(k.shooterId.value, k.victim, k.shooterId.value)];
        assert KillMessages(kills) == told + (death + rest);
        assert ShooterReports(kills) == told + ShooterReports(kills[1..]);
        KilledOfAppend(told, death + rest);
        assert KilledOf(told) == told by {
          assert told[1..] == [];
        }
      } else {
        assert KillMessages(kills) == death + rest;
        assert ShooterReports(kills) == ShooterReports(kills[1..]);
      }
    }
  }

  lemma {:induction false} KillMessagesDeaths(kills: seq<PlayerKill>)
    ensures DeathsOf(KillMessages(kills)) == VictimsOf(kills)
    decreases |kills|
  {
    if kills != [] {
      var k := kills[0];
      var told := if k.shooterId.Some? && Truthy(k.shooterId.value) then [PlayerKilled(k.shooterId.value, k.victim, k.shooterId.value)] else [];
      var death := [Death(k.victim, k.killerName)];
      var rest := KillMessages(kills[1..]);
      KillMessagesDeaths(kills[1..]);
      assert KillMessages(kills) == told + (death + rest);
      DeathsOfAppend(told, death + rest);
      DeathsOfAppend(death, rest);
      assert DeathsOf(told) == [];
      assert DeathsOf(death) == [k.victim];
    }
  }

  /** What pickup may do to a player: raise the coin count of a living one. */
  ghost predicate OnlyCoinsGained(w: World, u: World) {
    forall k :: k in w.players.vals ==>
      && k in u.players.vals
      && u.players.vals[k] == w.players.vals[k].(coins := u.players.vals[k].coins)
      && u.players.vals[k].coins >= w.players.vals[k].coins
      && (w.players.vals[k].hp <= 0 ==> u.players.vals[k] == w.players.vals[k])
  }

  /** One player's pickup keeps the invariant and only raises that living player's coins. */
  lemma PickupOneKeeps(w: World, k: PlayerId, now: int)
    requires Invariant(w) && k in w.players.vals && w.players.vals[k].hp > 0
    ensures var r := CoinRules.CheckPickup(w.coins, w.drops, w.players.vals[k], now);
      var u := w.(players := w.players.Put(k, r.2), coins := r.0, drops := r.1);
      Invariant(u) && OnlyCoinsGained(w, u)
  {
    CoinRules.PickupShrinks(w.coins, w.drops, w.players.vals[k], now);
  }

  /** Pickup keeps the invariant and touches only the coin count of living players. */
  lemma {:induction false} PickupAllKeeps(w: World, ks: seq<PlayerId>, now: int)
    requires Invariant(w)
    ensures var r := PickupAll(w, ks, now);
      Invariant(r) && OnlyCoinsGained(w, r)
    decreases |ks|
  {
    if ks != [] {
      if ks[0] in w.players.vals && w.players.vals[ks[0]].hp > 0 {
        var (c, d, p) := CoinRules.CheckPickup(w.coins, w.drops, w.players.vals[ks[0]], now);
        var w1 := w.(players := w.players.Put(ks[0], p), coins := c, drops := d);
        PickupOneKeeps(w, ks[0], now);
        PickupAllKeeps(w1, ks[1..], now);
      } else {
        PickupAllKeeps(w, ks[1..], now);
      }
    }
  }

  /** The `enemyKilled` events go to exactly the registered players among the shooters of the kills. */
  lemma {:induction false} EnemyKillEventsExact(players: Table<PlayerId, Player>, kills: seq<EnemyKill>, e: Event)
    ensures e in EnemyKillEvents(players, kills) <==>
      exists j :: 0 <= j < |kills| && kills[j].shooterId.PlayerRef? && kills[j].shooterId.pid in players.vals
        && e == EnemyKilled(kills[j].shooterId.pid, kills[j].enemyId)
    decreases |kills|
  {
    if kills != [] {
      EnemyKillEventsExact(players, kills[1..], e);
      if e in EnemyKillEvents(players, kills[1..]) {
        var j :| 0 <= j < |kills[1..]| && kills[1..][j].shooterId.PlayerRef? && kills[1..][j].shooterId.pid in players.vals
          && e == EnemyKilled(kills[1..][j].shooterId.pid, kills[1..][j].enemyId);
        assert kills[1..][j] == kills[j + 1];
      }
      if exists j :: 0 < j < |kills| && kills[j].shooterId.PlayerRef? && kills[j].shooterId.pid in players.vals
          && e == EnemyKilled(kills[j].shooterId.pid, kills[j].enemyId) {
        var j :| 0 < j < |kills| && kills[j].shooterId.PlayerRef? && kills[j].shooterId.pid in players.vals
          && e == EnemyKilled(kills[j].shooterId.pid, kills[j].enemyId);
        assert kills[j] == kills[1..][j - 1];
      }
    }
  }

  /** Every player named by a `death` event of `evs` is dead in `w`. */
  ghost predicate DeathsFinal(w: World, evs: seq<Event>) {
    forall q :: q in DeathsOf(evs) ==> q in w.players.vals && w.players.vals[q].hp <= 0
  }

  lemma EnemyPhaseKeeps(w: World, now: int, dir: (real, real) -> (real, real), draw: nat -> Roll, pos: nat)
    requires Invariant(w)
    ensures var r := EnemyPhase(w, now, dir, draw, pos);
      Invariant(r.0) && DeathsFinal(r.0, r.2)
  {
    var (w1, p1) := CoinStage(w, now, draw, pos);
    CoinStageKeeps(w, now, draw, pos);
    var (w2, p2, kill) := EnemyUpdate(w1, now, dir, draw, p1);
    EnemyUpdateKeeps(w1, now, dir, draw, p1);
    if kill.Some? {
      HandleDeathKeeps(w2, kill.value.victim, now, draw, p2);
      assert DeathsOf([Death(kill.value.victim, kill.value.killerName)]) == [kill.value.victim];
    }
  }

  lemma BulletPhaseKeeps(w: World, now: int, draw: nat -> Roll, pos: nat)
    requires Invariant(w)
    ensures var r := BulletPhase(w, now, draw, pos);
      Invariant(r.0) && DeadStayDead(w, r.0) && DeathsFinal(r.0, r.2)
  {
    var (w4, playerKills, enemyKills) := BulletUpdate(w);
    BulletUpdateKeeps(w);
    var (w5, p5, killEvents) := SettleKills(w4, playerKills, now, draw, pos);
    SettleKillsKeeps(w4, playerKills, now, draw, pos);
    SettleKillsTellsVictims(w4, playerKills, now, draw, pos);
    VictimsOfIn(playerKills);
    var enemyEvents := EnemyKillEvents(w5.players, enemyKills);
    EnemyKillEventsHaveNoDeaths(w5.players, enemyKills);
    DeathsOfAppend(killEvents, enemyEvents);
    assert DeathsFinal(w5, killEvents + enemyEvents);
    PickupAllKeeps(w5, w5.players.keys, now);
  }

  /**
   * A tick keeps the invariant and the set of registered players, and every
   * player told of its death during it is dead when it ends.
   */
  lemma TickKeepsInvariant(w: World, now: int, dir: (real, real) -> (real, real), draw: nat -> Roll, pos: nat)
    requires Invariant(w)
    ensures var r := Tick(w, now, dir, draw, pos);
      Invariant(r.0) && SamePlayers(w, r.0) && DeathsFinal(r.0, r.2)
  {
    var (w3, p3, deathEvents) := EnemyPhase(w, now, dir, draw, pos);
    EnemyPhaseKeeps(w, now, dir, draw, pos);
    var (w6, p6, laterEvents) := BulletPhase(w3, now, draw, p3);
    BulletPhaseKeeps(w3, now, draw, p3);
    DeathsOfAppend(deathEvents, laterEvents);
  }

  lemma {:induction false} EnemyKillEventsHaveNoDeaths(players: Table<PlayerId, Player>, kills: seq<EnemyKill>)
    ensures DeathsOf(EnemyKillEvents(players, kills)) == []
    decreases |kills|
  {
    if kills != [] {
      var head := if kills[0].shooterId.PlayerRef? && kills[0].shooterId.pid in players.vals
        then [EnemyKilled(kills[0].shooterId.pid, kills[0].enemyId)] else [];
      EnemyKillEventsHaveNoDeaths(players, kills[1..]);
      DeathsOfAppend(head, EnemyKillEvents(players, kills[1..]));
      assert DeathsOf(head) == [];
    }
  }

  lemma {:induction false} VictimsOfIn(kills: seq<PlayerKill>)
    ensures forall q :: q in VictimsOf(kills) ==> exists j :: 0 <= j < |kills| && kills[j].victim == q
    decreases |kills|
  {
    if kills != [] {
      VictimsOfIn(kills[1..]);
      forall q | q in VictimsOf(kills) ensures exists j :: 0 <= j < |kills| && kills[j].victim == q {
        if q != kills[0].victim {
          assert VictimsOf(kills) == [kills[0].victim] + VictimsOf(kills[1..]);
          assert q in VictimsOf(kills[1..]);
          var j :| 0 <= j < |kills[1..]| && kills[1..][j].victim == q;
          assert kills[j + 1].victim == q;
        }
      }
    }
  }

  // ---------------------------------------------------------------------
  // The melee handler of the socket server

  /** The `enemyKilled` events the attacker's own socket receives, one per killed enemy. */
  function EnemyKilledAll(to: PlayerId, ids: seq<EnemyId>): (r: seq<Event>)
    ensures |r| == |ids|
    ensures forall j :: 0 <= j < |ids| ==> r[j] == EnemyKilled(to, ids[j])
    decreases |ids|
  {
    if ids == [] then [] else [EnemyKilled(to, ids[0])] + EnemyKilledAll(to, ids[1..])
  }

  /** A melee kill settled like a bullet kill without a shooter: its bounty was paid by the attack itself. */
  function AsPlayerKills(kills: seq<MeleeKill>): (r: seq<PlayerKill>)
    ensures |r| == |kills|
    ensures forall j :: 0 <= j < |kills| ==> r[j] == PlayerKill(kills[j].victim, kills[j].killer, None)
    decreases |kills|
  {
    if kills == [] then [] else [PlayerKill(kills[0].victim, kills[0].killer, None)] + AsPlayerKills(kills[1..])
  }

  /**
   * The `meleeAttack` handler: nothing when the attack is refused;
   * otherwise the attacker is told of each killed enemy, and each killed
   * player dies and is told the attacker's name.
   */
  function HandleMelee(w: World, id: PlayerId, now: int, draw: nat -> Roll, pos: nat): (r: Option<(World, nat, seq<Event>)>)
    requires WorldValid(w)
    ensures r.None? <==> !PlayerRules.CanAttack(w.players, id, now, true)
    ensures r.Some? ==> WorldValid(r.value.0) && SamePlayers(w, r.value.0)
  {
    match PlayerRules.MeleeAttack(w.players, w.enemies, id, now)
    case None => None
    case Some((ps, es, out)) =>
      PlayerRules.MeleeAttackFrame(w.players, w.enemies, id, now);
      var w1 := w.(players := ps, enemies := es);
      var kills := AsPlayerKills(out.killedPlayers);
      var (w2, p2, deaths) := SettleKills(w1, kills, now, draw, pos);
      Some((w2, p2, EnemyKilledAll(id, out.killedEnemies) + deaths))
  }

  /** `HandleMelee` from the outcome `m` of a successful attack and the settling of its kills. */
  lemma HandleMeleeOf(w: World, id: PlayerId, now: int, draw: nat -> Roll, pos: nat,
                      m: (Table<PlayerId, Player>, Table<EnemyId, Enemy>, PlayerRules.MeleeOutcome), w2: World, p2: nat, deaths: seq<Event>)
    requires WorldValid(w) && PlayerRules.CanAttack(w.players, id, now, true)
    requires m == PlayerRules.MeleeAttack(w.players, w.enemies, id, now).value
    requires WorldValid(w.(players := m.0, enemies := m.1))
    requires VictimsKnown(w.(players := m.0, enemies := m.1), AsPlayerKills(m.2.killedPlayers))
    requires (w2, p2, deaths) == SettleKills(w.(players := m.0, enemies := m.1), AsPlayerKills(m.2.killedPlayers), now, draw, pos)
    ensures HandleMelee(w, id, now, draw, pos) == Some((w2, p2, EnemyKilledAll(id, m.2.killedEnemies) + deaths))
  {
  }

  /**
   * A melee attack keeps the invariant; every player it kills is told so once,
   * in order, and is dead afterwards.
   */
  lemma HandleMeleeKeeps(w: World, id: PlayerId, now: int, draw: nat -> Roll, pos: nat)
    requires Invariant(w) && PlayerRules.CanAttack(w.players, id, now, true)
    ensures var m := PlayerRules.MeleeAttack(w.players, w.enemies, id, now).value;
      var r := HandleMelee(w, id, now, draw, pos).value;
      && Invariant(r.0)
      && DeathsOf(r.2) == VictimsOf(AsPlayerKills(m.2.killedPlayers))
      && DeathsFinal(r.0, r.2)
  {
    var m := PlayerRules.MeleeAttack(w.players, w.enemies, id, now).value;
    PlayerRules.MeleeAttackFrame(w.players, w.enemies, id, now);
    var w1 := w.(players := m.0, enemies := m.1);
    assert Invariant(w1);
    var kills := AsPlayerKills(m.2.killedPlayers);
    SettleKillsKeeps(w1, kills, now, draw, pos);
    SettleKillsTellsVictims(w1, kills, now, draw, pos);
    VictimsOfIn(kills);
    var (w2, p2, deaths) := SettleKills(w1, kills, now, draw, pos);
    EnemyKilledAllHasNoDeaths(id, m.2.killedEnemies);
    DeathsOfAppend(EnemyKilledAll(id, m.2.killedEnemies), deaths);
  }

  lemma {:induction false} EnemyKilledAllHasNoDeaths(to: PlayerId, ids: seq<EnemyId>)
    ensures DeathsOf(EnemyKilledAll(to, ids)) == []
    decreases |ids|
  {
    if ids != [] {
      EnemyKilledAllHasNoDeaths(to, ids[1..]);
      DeathsOfAppend([EnemyKilled(to, ids[0])], EnemyKilledAll(to, ids[1..]));
      assert DeathsOf([EnemyKilled(to, ids[0])]) == [];
    }
  }

  // ---------------------------------------------------------------------
  // The other socket handlers, the state broadcast, and whole runs

  /** The `join` handler: `addPlayer(socket.id, data)`, its two draws taken from `pos`. */
  function OnJoin(w: World, id: PlayerId, name: Option<string>, draw: nat -> Roll, pos: nat): (r: (World, nat))
    requires WorldValid(w)
    ensures WorldValid(r.0) && r.0 == w.(players := r.0.players) && r.1 == pos + 2
    ensures r.0.players.vals == w.players.vals[id := PlayerRules.NewPlayer(id, name, draw(pos), draw(pos + 1))]
    ensures r.0.players.keys == if id in w.players.vals then w.players.keys else w.players.keys + [id]
  {
    (w.(players := w.players.Put(id, PlayerRules.NewPlayer(id, name, draw(pos), draw(pos + 1)))), pos + 2)
  }

  /** The `move` handler: `movePlayer(socket.id, data)`. */
  function OnMove(w: World, id: PlayerId, dx: real, dy: real): (r: World)
    requires WorldValid(w)
    ensures WorldValid(r) && SamePlayers(w, r) && r == w.(players := r.players)
  {
    w.(players := PlayerRules.Move(w.players, id, dx, dy))
  }

  /** The `rangedAttack` handler: `rangedAttack(socket.id, data, bulletManager)`. */
  function OnRanged(w: World, id: PlayerId, vx: real, vy: real, now: int): (r: World)
    requires WorldValid(w)
    ensures WorldValid(r) && SamePlayers(w, r)
    ensures !PlayerRules.CanAttack(w.players, id, now, false) ==> r == w
    ensures PlayerRules.CanAttack(w.players, id, now, false) ==>
      && r == w.(players := r.players, bullets := r.bullets, nextBullet := w.nextBullet + 1)
      && r.bullets.keys == w.bullets.keys + [w.nextBullet]
      && r.bullets.vals[w.nextBullet].ownerId == PlayerRef(id) && !r.bullets.vals[w.nextBullet].fromEnemy
  {
    match PlayerRules.RangedAttack(w.players, id, vx, vy, now)
    case None => w
    case Some(a) =>
      var c := BulletRules.Create(w.bullets, w.nextBullet, a.1, now);
      w.(players := a.0, bullets := c.0, nextBullet := c.1)
  }

  /** The `disconnect` handler: `removePlayer(socket.id)`. */
  function OnDisconnect(w: World, id: PlayerId): (r: World)
    requires WorldValid(w)
    ensures WorldValid(r) && r == w.(players := r.players) && id !in r.players.vals
    ensures r.players.vals == w.players.vals - {id}
  {
    w.(players := w.players.Delete(id))
  }

  /** The respawn timer for `id` fires: two draws when the player is still registered, none otherwise. */
  function OnRespawn(w: World, id: PlayerId, draw: nat -> Roll, pos: nat): (r: (World, nat))
    requires WorldValid(w)
    ensures WorldValid(r.0) && SamePlayers(w, r.0) && r.0 == w.(players := r.0.players)
    ensures r.1 == pos + if id in w.players.vals then 2 else 0
  {
    (w.(players := PlayerRules.Respawn(w.players, id, draw(pos), draw(pos + 1))),
     pos + if id in w.players.vals then 2 else 0)
  }

  /** `getGameState()`: every table's values in iteration order. */
  datatype GameState = GameState(
    players: seq<Player>,
    enemies: seq<Enemy>,
    bullets: seq<Bullet>,
    coins: seq<Coin>,
    droppedCoins: seq<DroppedCoin>)

  function State(w: World): (g: GameState)
    requires WorldValid(w)
    ensures |g.players| == w.players.Size() && |g.enemies| == w.enemies.Size() && |g.bullets| == w.bullets.Size()
    ensures |g.coins| == w.coins.Size() && |g.droppedCoins| == w.drops.Size()
    ensures forall i :: 0 <= i < |g.players| ==> g.players[i] == w.players.vals[w.players.keys[i]]
    ensures forall i :: 0 <= i < |g.enemies| ==> g.enemies[i] == w.enemies.vals[w.enemies.keys[i]]
    ensures forall i :: 0 <= i < |g.bullets| ==> g.bullets[i] == w.bullets.vals[w.bullets.keys[i]]
    ensures forall i :: 0 <= i < |g.coins| ==> g.coins[i] == w.coins.vals[w.coins.keys[i]]
    ensures forall i :: 0 <= i < |g.droppedCoins| ==> g.droppedCoins[i] == w.drops.vals[w.drops.keys[i]]
  {
    GameState(w.players.Values(), w.enemies.Values(), w.bullets.Values(), w.coins.Values(), w.drops.Values())
  }

  /** What can happen to the server next: a socket message, the respawn timer, or the tick interval. */
  datatype Input =
    | Join(id: PlayerId, name: Option<string>)
    | Move(id: PlayerId, dx: real, dy: real)
    | MeleeAttack(id: PlayerId)
    | RangedAttack(id: PlayerId, vx: real, vy: real)
    | Disconnect(id: PlayerId)
    | RespawnDue(id: PlayerId)
    | TickDue(dir: (real, real) -> (real, real))

  /**
   * One input at time `now`, with the handler it reaches. A join is answered
   * with `joined`; a tick is followed by the `gameState` broadcast, returned
   * beside its events; the other inputs broadcast nothing.
   */
  function Step(w: World, input: Input, now: int, draw: nat -> Roll, pos: nat): (r: (World, nat, seq<Event>, Option<GameState>))
    requires WorldValid(w)
    ensures WorldValid(r.0)
    ensures r.3.Some? <==> input.TickDue?
  {
    match input
    case Join(id, name) => var j := OnJoin(w, id, name, draw, pos); (j.0, j.1, [Joined(id, WORLD_SIZE)], None)
    case Move(id, dx, dy) => (OnMove(w, id, dx, dy), pos, [], None)
    case MeleeAttack(id) =>
      var m := HandleMelee(w, id, now, draw, pos);
      if m.None? then (w, pos, [], None) else (m.value.0, m.value.1, m.value.2, None)
    case RangedAttack(id, vx, vy) => (OnRanged(w, id, vx, vy, now), pos, [], None)
    case Disconnect(id) => (OnDisconnect(w, id), pos, [], None)
    case RespawnDue(id) => var q := OnRespawn(w, id, draw, pos); (q.0, q.1, [], None)
    case TickDue(dir) => var t := Tick(w, now, dir, draw, pos); (t.0, t.1, t.2, Some(State(t.0)))
  }

  /** A player who joins is alive and in bounds, so joining keeps the invariant. */
  lemma OnJoinKeeps(w: World, id: PlayerId, name: Option<string>, draw: nat -> Roll, pos: nat)
    requires Invariant(w)
    ensures var r := OnJoin(w, id, name, draw, pos).0;
      Invariant(r) && id in r.players.vals && r.players.vals[id].hp > 0
  {
    var r := OnJoin(w, id, name, draw, pos).0;
    assert PlayerRules.AllInBounds(r.players);
  }

  /** A move keeps the invariant. */
  lemma OnMoveKeeps(w: World, id: PlayerId, dx: real, dy: real)
    requires Invariant(w)
    ensures Invariant(OnMove(w, id, dx, dy))
  {
  }

  /** A ranged attack keeps the invariant: its bullet does `RANGED.DAMAGE`, which is not negative. */
  lemma OnRangedKeeps(w: World, id: PlayerId, vx: real, vy: real, now: int)
    requires Invariant(w)
    ensures Invariant(OnRanged(w, id, vx, vy, now))
  {
    var r := OnRanged(w, id, vx, vy, now);
    if PlayerRules.CanAttack(w.players, id, now, false) {
      assert r.bullets.vals[w.nextBullet].damage == RANGED_DAMAGE;
      assert PlayerRules.AllInBounds(r.players) by {
        forall k | k in r.players.vals ensures PlayerRules.PlayerInBounds(r.players.vals[k]) {
          assert k in w.players.vals;
        }
      }
    }
  }

  /** A disconnect keeps the invariant. */
  lemma OnDisconnectKeeps(w: World, id: PlayerId)
    requires Invariant(w)
    ensures Invariant(OnDisconnect(w, id))
  {
  }

  /** A respawn keeps the invariant, and a registered player comes back alive. */
  lemma OnRespawnKeeps(w: World, id: PlayerId, draw: nat -> Roll, pos: nat)
    requires Invariant(w)
    ensures var r := OnRespawn(w, id, draw, pos).0;
      Invariant(r) && (id in w.players.vals ==> r.players.vals[id].hp > 0)
  {
  }

  /** Every input keeps the invariant a tick keeps. */
  lemma StepKeepsInvariant(w: World, input: Input, now: int, draw: nat -> Roll, pos: nat)
    requires Invariant(w)
    ensures Invariant(Step(w, input, now, draw, pos).0)
  {
    match input
    case Join(id, name) => OnJoinKeeps(w, id, name, draw, pos);
    case Move(id, dx, dy) => OnMoveKeeps(w, id, dx, dy);
    case MeleeAttack(id) =>
      if PlayerRules.CanAttack(w.players, id, now, true) {
        HandleMeleeKeeps(w, id, now, draw, pos);
      }
    case RangedAttack(id, vx, vy) => OnRangedKeeps(w, id, vx, vy, now);
    case Disconnect(id) => OnDisconnectKeeps(w, id);
    case RespawnDue(id) => OnRespawnKeeps(w, id, draw, pos);
    case TickDue(dir) => TickKeepsInvariant(w, now, dir, draw, pos);
  }

  /** A run: the inputs in order, each at its time, threading the random stream. */
  function Run(w: World, inputs: seq<(Input, int)>, draw: nat -> Roll, pos: nat): (r: (World, nat))
    requires WorldValid(w)
    ensures WorldValid(r.0)
    decreases |inputs|
  {
    if inputs == [] then (w, pos)
    else
      var s := Step(w, inputs[0].0, inputs[0].1, draw, pos);
      Run(s.0, inputs[1..], draw, s.1)
  }

  /** A run keeps the invariant. */
  lemma {:induction false} RunKeepsInvariant(w: World, inputs: seq<(Input, int)>, draw: nat -> Roll, pos: nat)
    requires Invariant(w)
    ensures Invariant(Run(w, inputs, draw, pos).0)
    decreases |inputs|
  {
    if inputs != [] {
      var s := Step(w, inputs[0].0, inputs[0].1, draw, pos);
      StepKeepsInvariant(w, inputs[0].0, inputs[0].1, draw, pos);
      RunKeepsInvariant(s.0, inputs[1..], draw, s.1);
    }
  }

  /**
   * Every world the server reaches from `new GameLogic(io)` satisfies the
   * invariant: tables well formed, ids below their counters, players and
   * enemies in bounds, at most `COIN_MAX_AMBIENT` ambient coins, no healing bullet.
   */
  lemma ReachableInvariant(draw: nat -> Roll, pos: nat, inputs: seq<(Input, int)>)
    ensures var i := Initial(draw, pos);
      Invariant(Run(i.0, inputs, draw, i.1).0)
  {
    var i := Initial(draw, pos);
    RunKeepsInvariant(i.0, inputs, draw, i.1);
  }
}
