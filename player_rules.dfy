/**
 * The rules of the player manager as functions on values: joining, moving,
 * the melee and ranged attacks, death and respawn. The manager class in
 * module Server runs them in place and is proved equal to them.
 */
module PlayerRules {
  import opened Wrappers
  import opened Config
  import opened Geometry
  import opened Random
  import opened Tables
  import opened Entities
  import EnemyRules

  // ---------------------------------------------------------------------
  // Joining and moving

  /** `data.name || 'Anonymous'`: a missing or empty name becomes "Anonymous". */
  function DisplayName(name: Option<string>): (r: string)
    ensures r != ""
    ensures name.Some? && name.value != "" ==> r == name.value
    ensures name.None? || name.value == "" ==> r == "Anonymous"
  {
    if name.Some? && name.value != "" then name.value else "Anonymous"
  }

  /** Player positions: `[PLAYER.SIZE, WORLD_SIZE - PLAYER.SIZE]` on both axes. */
  ghost predicate PlayerInBounds(p: Player) {
    PLAYER_SIZE <= p.x <= WORLD_SIZE - PLAYER_SIZE && PLAYER_SIZE <= p.y <= WORLD_SIZE - PLAYER_SIZE
  }

  ghost predicate AllInBounds(t: Table<PlayerId, Player>) {
    forall k :: k in t.vals ==> PlayerInBounds(t.vals[k])
  }

  /**
   * The record `addPlayer` stores: full health, no coins, both cooldowns at
   * 0, and a position drawn in `[100, WORLD_SIZE - 100)`.
   */
  function NewPlayer(id: PlayerId, name: Option<string>, rx: Roll, ry: Roll): (p: Player)
    ensures p.id == id && p.name == DisplayName(name)
    ensures p.hp == p.maxHp == PLAYER_MAX_HP && p.coins == 0
    ensures p.lastMeleeAttack == 0 && p.lastRangedAttack == 0
    ensures 100.0 <= p.x < WORLD_SIZE - 100.0 && 100.0 <= p.y < WORLD_SIZE - 100.0
    ensures PlayerInBounds(p)
  {
    Player(id, DisplayName(name),
      SpawnCoord(rx, WORLD_SIZE - 200.0, 100.0), SpawnCoord(ry, WORLD_SIZE - 200.0, 100.0),
      PLAYER_MAX_HP, PLAYER_MAX_HP, 0, 0, 0)
  }

  /**
   * `movePlayer`'s step for a living player: each axis moves by `d * SPEED`
   * and is clamped to the player bounds; no diagonal scaling is applied.
   * Only the position changes.
   */
  function Moved(p: Player, dx: real, dy: real): (m: Player)
    ensures PlayerInBounds(m)
    ensures m == p.(x := m.x, y := m.y)
    ensures PLAYER_SIZE <= p.x + dx * PLAYER_SPEED <= WORLD_SIZE - PLAYER_SIZE ==> m.x == p.x + dx * PLAYER_SPEED
    ensures PLAYER_SIZE <= p.y + dy * PLAYER_SPEED <= WORLD_SIZE - PLAYER_SIZE ==> m.y == p.y + dy * PLAYER_SPEED
  {
    p.(x := Clamp(PLAYER_SIZE, WORLD_SIZE - PLAYER_SIZE, p.x + dx * PLAYER_SPEED),
       y := Clamp(PLAYER_SIZE, WORLD_SIZE - PLAYER_SIZE, p.y + dy * PLAYER_SPEED))
  }

  /**
   * `movePlayer(id, {dx, dy})`: an unknown or dead player is left alone;
   * otherwise the player is replaced by its moved record.
   */
  function Move(t: Table<PlayerId, Player>, id: PlayerId, dx: real, dy: real): (r: Table<PlayerId, Player>)
    requires t.Valid()
    ensures r.Valid() && r.keys == t.keys
    ensures id !in t.vals || t.vals[id].hp <= 0 ==> r == t
    ensures id in t.vals && t.vals[id].hp > 0 ==> r.vals == t.vals[id := Moved(t.vals[id], dx, dy)]
    ensures AllInBounds(t) ==> AllInBounds(r)
  {
    if id in t.vals && t.vals[id].hp > 0 then t.Put(id, Moved(t.vals[id], dx, dy)) else t
  }

  // ---------------------------------------------------------------------
  // Attacks

  /** The cooldown gate: an attack is refused while `now - last < cooldown`. */
  predicate Ready(last: int, now: int, cooldown: int) {
    now - last >= cooldown
  }

  /** An attack is possible: the player exists, is alive and its cooldown has run out. */
  predicate CanAttack(t: Table<PlayerId, Player>, id: PlayerId, now: int, melee: bool) {
    && id in t.vals && t.vals[id].hp > 0
    && Ready(if melee then t.vals[id].lastMeleeAttack else t.vals[id].lastRangedAttack, now,
             if melee then MELEE_COOLDOWN else RANGED_COOLDOWN)
  }

  /** Once an attack is possible it stays possible as time passes, until the player attacks or dies. */
  lemma CooldownPasses(t: Table<PlayerId, Player>, id: PlayerId, now: int, later: int, melee: bool)
    requires CanAttack(t, id, now, melee) && now <= later
    ensures CanAttack(t, id, later, melee)
  {
  }

  /**
   * The cooldown after a successful melee attack: the attacker stays alive,
   * a further melee attack is possible exactly once `MELEE_COOLDOWN` ms have
   * passed, and the ranged cooldown is left as it was.
   */
  lemma MeleeCooldown(players: Table<PlayerId, Player>, enemies: Table<EnemyId, Enemy>, id: PlayerId, now: int, later: int)
    requires players.Valid() && enemies.Valid() && CanAttack(players, id, now, true)
    ensures var r := MeleeAttack(players, enemies, id, now).value;
      && (CanAttack(r.0, id, later, true) <==> later - now >= MELEE_COOLDOWN)
      && (CanAttack(r.0, id, later, false) <==> CanAttack(players, id, later, false))
  {
    MeleeAttackEffect(players, enemies, id, now);
  }

  /**
   * The cooldown after a successful ranged attack: a further shot is
   * possible exactly once `RANGED_COOLDOWN` ms have passed, and the melee
   * cooldown is left as it was.
   */
  lemma RangedCooldown(players: Table<PlayerId, Player>, id: PlayerId, vx: real, vy: real, now: int, later: int)
    requires players.Valid() && CanAttack(players, id, now, false)
    ensures var r := RangedAttack(players, id, vx, vy, now).value;
      && (CanAttack(r.0, id, later, false) <==> later - now >= RANGED_COOLDOWN)
      && (CanAttack(r.0, id, later, true) <==> CanAttack(players, id, later, true))
  {
  }

  /** An entity at `(x, y)` is within melee range of the attacker at `(ax, ay)`. */
  predicate InMelee(ax: real, ay: real, x: real, y: real) {
    Within(ax, ay, x, y, MELEE_RANGE)
  }

  /**
   * The first loop of `meleeAttack`, over the enemy ids `ks`: every enemy in
   * range takes `MELEE.DAMAGE` through `takeDamage` (whatever its hp), and
   * the ids `takeDamage` reports killed are appended to `killed`.
   */
  function MeleeEnemies(t: Table<EnemyId, Enemy>, ks: seq<EnemyId>, ax: real, ay: real, killed: seq<EnemyId>): (r: (Table<EnemyId, Enemy>, seq<EnemyId>))
    ensures r.0.keys == t.keys && r.0.vals.Keys == t.vals.Keys
    decreases |ks|
  {
    if ks == [] then (t, killed)
    else
      var k := ks[0];
      if k in t.vals && InMelee(ax, ay, t.vals[k].x, t.vals[k].y) then
        var (t1, dead) := EnemyRules.TakeDamage(t, k, MELEE_DAMAGE);
        MeleeEnemies(t1, ks[1..], ax, ay, if dead then killed + [k] else killed)
      else MeleeEnemies(t, ks[1..], ax, ay, killed)
  }

  /** An enemy struck by a melee attack from `(ax, ay)`. */
  function StruckEnemy(e: Enemy, ks: seq<EnemyId>, k: EnemyId, ax: real, ay: real): Enemy {
    if k in ks && InMelee(ax, ay, e.x, e.y) then e.(hp := e.hp - MELEE_DAMAGE) else e
  }

  /**
   * The enemy loop hits every enemy of `ks` in range exactly once, leaves the
   * others alone, and reports killed exactly those whose hp falls to 0 or
   * below, each once; ids already dead are hit and reported again.
   */
  lemma {:induction false} MeleeEnemiesEffect(t: Table<EnemyId, Enemy>, ks: seq<EnemyId>, ax: real, ay: real, killed: seq<EnemyId>)
    requires Distinct(ks)
    ensures var r := MeleeEnemies(t, ks, ax, ay, killed);
      && (forall k :: k in t.vals ==> r.0.vals[k] == StruckEnemy(t.vals[k], ks, k, ax, ay))
      && (forall k :: k in r.1 <==>
            || k in killed
            || (k in ks && k in t.vals && InMelee(ax, ay, t.vals[k].x, t.vals[k].y) && t.vals[k].hp - MELEE_DAMAGE <= 0))
      && (Distinct(killed) && (forall k :: k in killed ==> k !in ks) ==> Distinct(r.1))
      && killed <= r.1
    decreases |ks|
  {
    if ks != [] {
      var k := ks[0];
      var r := MeleeEnemies(t, ks, ax, ay, killed);
      DistinctTail(ks);
      if k in t.vals && InMelee(ax, ay, t.vals[k].x, t.vals[k].y) {
        var (t1, dead) := EnemyRules.TakeDamage(t, k, MELEE_DAMAGE);
        var killed1 := if dead then killed + [k] else killed;
        assert r == MeleeEnemies(t1, ks[1..], ax, ay, killed1);
        MeleeEnemiesEffect(t1, ks[1..], ax, ay, killed1);
      } else {
        assert r == MeleeEnemies(t, ks[1..], ax, ay, killed);
        MeleeEnemiesEffect(t, ks[1..], ax, ay, killed);
      }
    }
  }

  /** The enemies of `ks` that a melee attack from `(ax, ay)` on `t` kills, in the order of `ks`. */
  ghost function MeleeKillsIn(t: Table<EnemyId, Enemy>, ks: seq<EnemyId>, ax: real, ay: real): seq<EnemyId>
    decreases |ks|
  {
    if ks == [] then []
    else
      var k := ks[0];
      (if k in t.vals && InMelee(ax, ay, t.vals[k].x, t.vals[k].y) && t.vals[k].hp - MELEE_DAMAGE <= 0 then [k] else [])
      + MeleeKillsIn(t, ks[1..], ax, ay)
  }

  /** Which enemies of `ks` are killed depends only on the entries of `ks`. */
  lemma {:induction false} MeleeKillsInReads(t: Table<EnemyId, Enemy>, u: Table<EnemyId, Enemy>, ks: seq<EnemyId>, ax: real, ay: real)
    requires forall k :: k in ks ==> (k in t.vals <==> k in u.vals) && (k in t.vals ==> t.vals[k] == u.vals[k])
    ensures MeleeKillsIn(t, ks, ax, ay) == MeleeKillsIn(u, ks, ax, ay)
    decreases |ks|
  {
    if ks != [] {
      MeleeKillsInReads(t, u, ks[1..], ax, ay);
    }
  }

  /**
   * The enemy loop reports its kills after `killed` in the order of `ks`:
   * exactly the enemies of `ks` in range whose hp falls to 0 or below.
   */
  lemma {:induction false} MeleeEnemiesOrder(t: Table<EnemyId, Enemy>, ks: seq<EnemyId>, ax: real, ay: real, killed: seq<EnemyId>)
    requires Distinct(ks)
    ensures MeleeEnemies(t, ks, ax, ay, killed).1 == killed + MeleeKillsIn(t, ks, ax, ay)
    decreases |ks|
  {
    if ks == [] {
      assert killed + [] == killed;
    } else {
      var k := ks[0];
      DistinctTail(ks);
      var rest := MeleeKillsIn(t, ks[1..], ax, ay);
      if k in t.vals && InMelee(ax, ay, t.vals[k].x, t.vals[k].y) {
        var (t1, dead) := EnemyRules.TakeDamage(t, k, MELEE_DAMAGE);
        var killed1 := if dead then killed + [k] else killed;
        assert MeleeEnemies(t, ks, ax, ay, killed) == MeleeEnemies(t1, ks[1..], ax, ay, killed1);
        assert MeleeKillsIn(t, ks, ax, ay) == (if dead then [k] else []) + rest;
        MeleeEnemiesOrder(t1, ks[1..], ax, ay, killed1);
        MeleeKillsInReads(t1, t, ks[1..], ax, ay);
        assert killed1 + rest == killed + ((if dead then [k] else []) + rest);
      } else {
        assert MeleeEnemies(t, ks, ax, ay, killed) == MeleeEnemies(t, ks[1..], ax, ay, killed);
        assert MeleeKillsIn(t, ks, ax, ay) == rest;
        MeleeEnemiesOrder(t, ks[1..], ax, ay, killed);
      }
    }
  }

  /** A player is struck: not the attacker, alive, and within melee range. */
  predicate Struck(attacker: PlayerId, ax: real, ay: real, k: PlayerId, p: Player) {
    k != attacker && p.hp > 0 && InMelee(ax, ay, p.x, p.y)
  }

  /**
   * The second loop of `meleeAttack`, over the player ids `ks`: each struck
   * player loses `MELEE.DAMAGE`; one brought to 0 hp or below is appended to
   * `kills` and adds a quarter of its coins, rounded down, to `gained`.
   */
  function MeleePlayers(t: Table<PlayerId, Player>, ks: seq<PlayerId>, attacker: PlayerId, ax: real, ay: real,
                        killer: string, gained: nat, kills: seq<MeleeKill>): (r: (Table<PlayerId, Player>, nat, seq<MeleeKill>))
    requires t.Valid()
    ensures r.0.Valid() && r.0.keys == t.keys
    decreases |ks|
  {
    if ks == [] then (t, gained, kills)
    else
      var k := ks[0];
      if k in t.vals && Struck(attacker, ax, ay, k, t.vals[k]) then
        var hit := t.vals[k].(hp := t.vals[k].hp - MELEE_DAMAGE);
        if hit.hp <= 0 then
          MeleePlayers(t.Put(k, hit), ks[1..], attacker, ax, ay, killer, gained + hit.coins / 4, kills + [MeleeKill(k, killer)])
        else
          MeleePlayers(t.Put(k, hit), ks[1..], attacker, ax, ay, killer, gained, kills)
      else MeleePlayers(t, ks[1..], attacker, ax, ay, killer, gained, kills)
  }

  /** The coins a melee kill earns: a quarter of each victim's coins, rounded down. */
  ghost function Bounty(t: Table<PlayerId, Player>, kills: seq<MeleeKill>): nat
    decreases |kills|
  {
    if kills == [] then 0
    else (if kills[0].victim in t.vals then t.vals[kills[0].victim].coins / 4 else 0) + Bounty(t, kills[1..])
  }

  lemma {:induction false} BountyReadsCoinsOnly(t: Table<PlayerId, Player>, u: Table<PlayerId, Player>, kills: seq<MeleeKill>)
    requires t.vals.Keys == u.vals.Keys
    requires forall k :: k in t.vals ==> t.vals[k].coins == u.vals[k].coins
    ensures Bounty(t, kills) == Bounty(u, kills)
    decreases |kills|
  {
    if kills != [] {
      BountyReadsCoinsOnly(t, u, kills[1..]);
    }
  }

  /** A player struck by a melee attack from `(ax, ay)`. */
  function StruckPlayer(p: Player, ks: seq<PlayerId>, k: PlayerId, attacker: PlayerId, ax: real, ay: real): Player {
    if k in ks && Struck(attacker, ax, ay, k, p) then p.(hp := p.hp - MELEE_DAMAGE) else p
  }

  /** The player loop hits every struck player of `ks` exactly once, never the attacker or a dead player. */
  lemma {:induction false} MeleePlayersHits(t: Table<PlayerId, Player>, ks: seq<PlayerId>, attacker: PlayerId, ax: real, ay: real,
                                            killer: string, gained: nat, kills: seq<MeleeKill>)
    requires t.Valid() && Distinct(ks)
    ensures var r := MeleePlayers(t, ks, attacker, ax, ay, killer, gained, kills);
      forall k :: k in t.vals ==> r.0.vals[k] == StruckPlayer(t.vals[k], ks, k, attacker, ax, ay)
    decreases |ks|
  {
    if ks != [] {
      var k := ks[0];
      DistinctTail(ks);
      var r := MeleePlayers(t, ks, attacker, ax, ay, killer, gained, kills);
      if k in t.vals && Struck(attacker, ax, ay, k, t.vals[k]) {
        var hit := t.vals[k].(hp := t.vals[k].hp - MELEE_DAMAGE);
        var t1 := t.Put(k, hit);
        var kills1 := if hit.hp <= 0 then kills + [MeleeKill(k, killer)] else kills;
        var gained1 := if hit.hp <= 0 then gained + hit.coins / 4 else gained;
        assert r == MeleePlayers(t1, ks[1..], attacker, ax, ay, killer, gained1, kills1);
        MeleePlayersHits(t1, ks[1..], attacker, ax, ay, killer, gained1, kills1);
        assert t1.vals == t.vals[k := hit];
      } else {
        assert r == MeleePlayers(t, ks[1..], attacker, ax, ay, killer, gained, kills);
        MeleePlayersHits(t, ks[1..], attacker, ax, ay, killer, gained, kills);
      }
    }
  }

  /**
   * The player loop reports exactly the struck players of `ks` whose hp falls
   * to 0 or below, appending them after `kills`.
   */
  lemma {:induction false} MeleePlayersKills(t: Table<PlayerId, Player>, ks: seq<PlayerId>, attacker: PlayerId, ax: real, ay: real,
                                             killer: string, gained: nat, kills: seq<MeleeKill>)
    requires t.Valid() && Distinct(ks)
    ensures var r := MeleePlayers(t, ks, attacker, ax, ay, killer, gained, kills);
      && kills <= r.2
      && (forall m :: m in r.2[|kills|..] <==> Killed(t, ks, attacker, ax, ay, killer, m))
    decreases |ks|
  {
    var r := MeleePlayers(t, ks, attacker, ax, ay, killer, gained, kills);
    if ks == [] {
      assert r.2[|kills|..] == [];
    } else {
      var k := ks[0];
      DistinctTail(ks);
      KilledHead(t, ks, attacker, ax, ay, killer);
      if k in t.vals && Struck(attacker, ax, ay, k, t.vals[k]) {
        var hit := t.vals[k].(hp := t.vals[k].hp - MELEE_DAMAGE);
        var t1 := t.Put(k, hit);
        var kills1 := if hit.hp <= 0 then kills + [MeleeKill(k, killer)] else kills;
        var gained1 := if hit.hp <= 0 then gained + hit.coins / 4 else gained;
        MeleePlayersKills(t1, ks[1..], attacker, ax, ay, killer, gained1, kills1);
        KilledIgnoresHit(t, ks[1..], k, hit, attacker, ax, ay, killer);
        assert r == MeleePlayers(t1, ks[1..], attacker, ax, ay, killer, gained1, kills1);
        if hit.hp <= 0 {
          assert r.2[|kills|..] == [MeleeKill(k, killer)] + r.2[|kills1|..];
        } else {
          assert kills1 == kills;
        }
      } else {
        assert r == MeleePlayers(t, ks[1..], attacker, ax, ay, killer, gained, kills);
        MeleePlayersKills(t, ks[1..], attacker, ax, ay, killer, gained, kills);
      }
    }
  }

  /** Whether the attack strikes down a player of `ks` splits into its head and its tail. */
  lemma KilledHead(t: Table<PlayerId, Player>, ks: seq<PlayerId>, attacker: PlayerId, ax: real, ay: real, killer: string)
    requires ks != []
    ensures forall m :: Killed(t, ks, attacker, ax, ay, killer, m) <==>
      || (m == MeleeKill(ks[0], killer) && ks[0] in t.vals && Struck(attacker, ax, ay, ks[0], t.vals[ks[0]])
          && t.vals[ks[0]].hp - MELEE_DAMAGE <= 0)
      || Killed(t, ks[1..], attacker, ax, ay, killer, m)
  {
    forall m: MeleeKill | m.victim in ks && m.victim != ks[0] ensures m.victim in ks[1..] {
    }
  }

  /** A hit on a player outside `ks` does not change which players of `ks` the attack strikes down. */
  lemma KilledIgnoresHit(t: Table<PlayerId, Player>, ks: seq<PlayerId>, k: PlayerId, hit: Player,
                         attacker: PlayerId, ax: real, ay: real, killer: string)
    requires t.Valid() && k !in ks
    ensures forall m :: Killed(t.Put(k, hit), ks, attacker, ax, ay, killer, m) <==> Killed(t, ks, attacker, ax, ay, killer, m)
  {
  }

  /** The reports of the players of `ks` that a melee attack on `t` strikes down, in the order of `ks`. */
  ghost function StruckDownIn(t: Table<PlayerId, Player>, ks: seq<PlayerId>, attacker: PlayerId, ax: real, ay: real, killer: string): seq<MeleeKill>
    decreases |ks|
  {
    if ks == [] then []
    else
      var k := ks[0];
      (if k in t.vals && Struck(attacker, ax, ay, k, t.vals[k]) && t.vals[k].hp - MELEE_DAMAGE <= 0 then [MeleeKill(k, killer)] else [])
      + StruckDownIn(t, ks[1..], attacker, ax, ay, killer)
  }

  /** Which players of `ks` are struck down depends only on the entries of `ks`. */
  lemma {:induction false} StruckDownInReads(t: Table<PlayerId, Player>, u: Table<PlayerId, Player>, ks: seq<PlayerId>,
                                             attacker: PlayerId, ax: real, ay: real, killer: string)
    requires forall k :: k in ks ==> (k in t.vals <==> k in u.vals) && (k in t.vals ==> t.vals[k] == u.vals[k])
    ensures StruckDownIn(t, ks, attacker, ax, ay, killer) == StruckDownIn(u, ks, attacker, ax, ay, killer)
    decreases |ks|
  {
    if ks != [] {
      StruckDownInReads(t, u, ks[1..], attacker, ax, ay, killer);
    }
  }

  /** Every report names a player of `ks`, and no player is reported twice. */
  ghost predicate ReportsOnce(s: seq<MeleeKill>, ks: seq<PlayerId>) {
    && (forall i :: 0 <= i < |s| ==> s[i].victim in ks)
    && (forall i, j :: 0 <= i < j < |s| ==> s[i].victim != s[j].victim)
  }

  /** Over distinct ids, the attack reports each player it strikes down once. */
  lemma {:induction false} StruckDownOnce(t: Table<PlayerId, Player>, ks: seq<PlayerId>, attacker: PlayerId, ax: real, ay: real, killer: string)
    requires Distinct(ks)
    ensures ReportsOnce(StruckDownIn(t, ks, attacker, ax, ay, killer), ks)
    decreases |ks|
  {
    if ks != [] {
      var k := ks[0];
      DistinctTail(ks);
      StruckDownOnce(t, ks[1..], attacker, ax, ay, killer);
      var rest := StruckDownIn(t, ks[1..], attacker, ax, ay, killer);
      assert ReportsOnce(rest, ks[1..]);
      if k in t.vals && Struck(attacker, ax, ay, k, t.vals[k]) && t.vals[k].hp - MELEE_DAMAGE <= 0 {
        ReportsOnceCons(MeleeKill(k, killer), rest, ks);
      } else {
        assert StruckDownIn(t, ks, attacker, ax, ay, killer) == rest;
      }
    }
  }

  /** A report of the head of `ks` before reports of its tail reports each player once. */
  lemma ReportsOnceCons(m: MeleeKill, rest: seq<MeleeKill>, ks: seq<PlayerId>)
    requires Distinct(ks) && ks != [] && m.victim == ks[0] && ReportsOnce(rest, ks[1..])
    ensures ReportsOnce([m] + rest, ks)
  {
    DistinctTail(ks);
    var s := [m] + rest;
    forall i | 0 < i < |s| ensures s[i].victim in ks[1..] {
      assert s[i] == rest[i - 1];
    }
  }

  /**
   * The player loop reports its kills after `kills` in the order of `ks`:
   * exactly the struck players of `ks` whose hp falls to 0 or below.
   */
  lemma {:induction false} MeleePlayersOrder(t: Table<PlayerId, Player>, ks: seq<PlayerId>, attacker: PlayerId, ax: real, ay: real,
                                             killer: string, gained: nat, kills: seq<MeleeKill>)
    requires t.Valid() && Distinct(ks)
    ensures MeleePlayers(t, ks, attacker, ax, ay, killer, gained, kills).2 == kills + StruckDownIn(t, ks, attacker, ax, ay, killer)
    decreases |ks|
  {
    if ks == [] {
      assert kills + [] == kills;
    } else {
      var k := ks[0];
      DistinctTail(ks);
      var rest := StruckDownIn(t, ks[1..], attacker, ax, ay, killer);
      if k in t.vals && Struck(attacker, ax, ay, k, t.vals[k]) {
        var hit := t.vals[k].(hp := t.vals[k].hp - MELEE_DAMAGE);
        var t1 := t.Put(k, hit);
        var kills1 := if hit.hp <= 0 then kills + [MeleeKill(k, killer)] else kills;
        var gained1 := if hit.hp <= 0 then gained + hit.coins / 4 else gained;
        assert MeleePlayers(t, ks, attacker, ax, ay, killer, gained, kills) == MeleePlayers(t1, ks[1..], attacker, ax, ay, killer, gained1, kills1);
        assert StruckDownIn(t, ks, attacker, ax, ay, killer) == (if hit.hp <= 0 then [MeleeKill(k, killer)] else []) + rest;
        MeleePlayersOrder(t1, ks[1..], attacker, ax, ay, killer, gained1, kills1);
        StruckDownInReads(t1, t, ks[1..], attacker, ax, ay, killer);
        assert kills1 + rest == kills + ((if hit.hp <= 0 then [MeleeKill(k, killer)] else []) + rest);
      } else {
        assert MeleePlayers(t, ks, attacker, ax, ay, killer, gained, kills) == MeleePlayers(t, ks[1..], attacker, ax, ay, killer, gained, kills);
        assert StruckDownIn(t, ks, attacker, ax, ay, killer) == rest;
        MeleePlayersOrder(t, ks[1..], attacker, ax, ay, killer, gained, kills);
      }
    }
  }

  /** `m` is the report of a player of `ks` that the attack strikes down. */
  ghost predicate Killed(t: Table<PlayerId, Player>, ks: seq<PlayerId>, attacker: PlayerId, ax: real, ay: real, killer: string, m: MeleeKill) {
    m.killer == killer && m.victim in ks && m.victim in t.vals
    && Struck(attacker, ax, ay, m.victim, t.vals[m.victim]) && t.vals[m.victim].hp - MELEE_DAMAGE <= 0
  }

  /** The player loop gains exactly the bounty of the players it reports. */
  lemma {:induction false} MeleePlayersBounty(t: Table<PlayerId, Player>, ks: seq<PlayerId>, attacker: PlayerId, ax: real, ay: real,
                                              killer: string, gained: nat, kills: seq<MeleeKill>)
    requires t.Valid()
    ensures var r := MeleePlayers(t, ks, attacker, ax, ay, killer, gained, kills);
      kills <= r.2 && r.1 == gained + Bounty(t, r.2[|kills|..])
    decreases |ks|
  {
    var r := MeleePlayers(t, ks, attacker, ax, ay, killer, gained, kills);
    if ks == [] {
      assert r.2[|kills|..] == [];
    } else {
      var k := ks[0];
      if k in t.vals && Struck(attacker, ax, ay, k, t.vals[k]) {
        var hit := t.vals[k].(hp := t.vals[k].hp - MELEE_DAMAGE);
        var t1 := t.Put(k, hit);
        if hit.hp <= 0 {
          var kills1 := kills + [MeleeKill(k, killer)];
          assert r == MeleePlayers(t1, ks[1..], attacker, ax, ay, killer, gained + hit.coins / 4, kills1);
          MeleePlayersBounty(t1, ks[1..], attacker, ax, ay, killer, gained + hit.coins / 4, kills1);
          BountyReadsCoinsOnly(t, t1, r.2[|kills|..]);
          assert r.2[|kills|..][1..] == r.2[|kills1|..];
        } else {
          assert r == MeleePlayers(t1, ks[1..], attacker, ax, ay, killer, gained, kills);
          MeleePlayersBounty(t1, ks[1..], attacker, ax, ay, killer, gained, kills);
          BountyReadsCoinsOnly(t, t1, r.2[|kills|..]);
        }
      } else {
        assert r == MeleePlayers(t, ks[1..], attacker, ax, ay, killer, gained, kills);
        MeleePlayersBounty(t, ks[1..], attacker, ax, ay, killer, gained, kills);
      }
    }
  }

  /** The result of a melee attack: `{killedEnemies, killedPlayers}`. */
  datatype MeleeOutcome = MeleeOutcome(killedEnemies: seq<EnemyId>, killedPlayers: seq<MeleeKill>)

  /**
   * `meleeAttack(id, enemyManager)`: null when the attacker is unknown, dead
   * or cooling down. Otherwise its `lastMeleeAttack` becomes `now`, the two
   * loops run over every enemy and player, and the attacker gains one coin
   * per killed enemy plus the bounty of the killed players.
   */
  function MeleeAttack(players: Table<PlayerId, Player>, enemies: Table<EnemyId, Enemy>, id: PlayerId, now: int)
    : (r: Option<(Table<PlayerId, Player>, Table<EnemyId, Enemy>, MeleeOutcome)>)
    requires players.Valid() && enemies.Valid()
    ensures r.None? <==> !CanAttack(players, id, now, true)
    ensures r.Some? ==> r.value.0.Valid() && r.value.0.keys == players.keys
    ensures r.Some? ==> r.value.1.keys == enemies.keys && r.value.1.vals.Keys == enemies.vals.Keys
  {
    if !CanAttack(players, id, now, true) then None
    else
      var a := players.vals[id].(lastMeleeAttack := now);
      Some(MeleeStrike(players.Put(id, a), enemies, id, a))
  }

  /**
   * The two loops of an attack by `a`, registered under `id` in `players`:
   * the enemy loop, the player loop, and then the attacker stored with one
   * coin per killed enemy and the bounty added.
   */
  function MeleeStrike(players: Table<PlayerId, Player>, enemies: Table<EnemyId, Enemy>, id: PlayerId, a: Player)
    : (Table<PlayerId, Player>, Table<EnemyId, Enemy>, MeleeOutcome)
    requires players.Valid() && enemies.Valid()
  {
    Settle(MeleePlayers(players, players.keys, id, a.x, a.y, a.name, 0, []), MeleeEnemies(enemies, enemies.keys, a.x, a.y, []), id, a)
  }

  /** The end of an attack by `a`: it is stored with its gains, after the loops left `hitPlayers` and `hitEnemies`. */
  function Settle(hitPlayers: (Table<PlayerId, Player>, nat, seq<MeleeKill>), hitEnemies: (Table<EnemyId, Enemy>, seq<EnemyId>),
                  id: PlayerId, a: Player): (Table<PlayerId, Player>, Table<EnemyId, Enemy>, MeleeOutcome)
  {
    (hitPlayers.0.Put(id, a.(coins := a.coins + |hitEnemies.1| + hitPlayers.1)), hitEnemies.0, MeleeOutcome(hitEnemies.1, hitPlayers.2))
  }

  /** `Settle` on the loops' results given component by component. */
  lemma SettleOf(hitPlayers: (Table<PlayerId, Player>, nat, seq<MeleeKill>), hitEnemies: (Table<EnemyId, Enemy>, seq<EnemyId>),
                 id: PlayerId, a: Player, t: Table<PlayerId, Player>, gained: nat, killedPlayers: seq<MeleeKill>,
                 e: Table<EnemyId, Enemy>, killedEnemies: seq<EnemyId>)
    requires hitPlayers == (t, gained, killedPlayers) && hitEnemies == (e, killedEnemies)
    ensures Settle(hitPlayers, hitEnemies, id, a)
         == (t.Put(id, a.(coins := a.coins + |killedEnemies| + gained)), e, MeleeOutcome(killedEnemies, killedPlayers))
  {
  }

  /**
   * An attack whose enemy loop left `(e, killedEnemies)` and whose player
   * loop left `(t, gained, killedPlayers)` ends with the attacker stored in
   * `t` with `|killedEnemies| + gained` more coins.
   */
  lemma MeleeStrikeOf(players: Table<PlayerId, Player>, enemies: Table<EnemyId, Enemy>, id: PlayerId, a: Player,
                      t: Table<PlayerId, Player>, gained: nat, killedPlayers: seq<MeleeKill>,
                      e: Table<EnemyId, Enemy>, killedEnemies: seq<EnemyId>)
    requires players.Valid() && enemies.Valid()
    requires (t, gained, killedPlayers) == MeleePlayers(players, players.keys, id, a.x, a.y, a.name, 0, [])
    requires (e, killedEnemies) == MeleeEnemies(enemies, enemies.keys, a.x, a.y, [])
    ensures MeleeStrike(players, enemies, id, a)
         == (t.Put(id, a.(coins := a.coins + |killedEnemies| + gained)), e, MeleeOutcome(killedEnemies, killedPlayers))
  {
    SettleOf(MeleePlayers(players, players.keys, id, a.x, a.y, a.name, 0, []), MeleeEnemies(enemies, enemies.keys, a.x, a.y, []),
             id, a, t, gained, killedPlayers, e, killedEnemies);
  }

  /**
   * What a melee attack does to everyone: each enemy in range loses
   * `MELEE.DAMAGE` and is reported exactly when that takes it to 0 or below;
   * each other living player in range loses `MELEE.DAMAGE` and is reported
   * exactly when that takes it to 0 or below; the attacker's cooldown is
   * stamped and it gains one coin per reported enemy plus a quarter
   * (rounded down) of each reported player's coins; nobody else's coins,
   * positions or names change.
   */
  lemma MeleeAttackEffect(players: Table<PlayerId, Player>, enemies: Table<EnemyId, Enemy>, id: PlayerId, now: int)
    requires players.Valid() && enemies.Valid() && CanAttack(players, id, now, true)
    ensures var r := MeleeAttack(players, enemies, id, now).value;
      var a := players.vals[id];
      && (forall k :: k in enemies.vals ==> r.1.vals[k] == StruckEnemy(enemies.vals[k], enemies.keys, k, a.x, a.y))
      && (forall k :: k in r.2.killedEnemies <==>
            k in enemies.vals && InMelee(a.x, a.y, enemies.vals[k].x, enemies.vals[k].y) && enemies.vals[k].hp - MELEE_DAMAGE <= 0)
      && Distinct(r.2.killedEnemies)
      && (forall k :: k in players.vals && k != id ==> r.0.vals[k] == StruckPlayer(players.vals[k], players.keys, k, id, a.x, a.y))
      && (forall m :: m in r.2.killedPlayers <==>
            m.killer == a.name && m.victim in players.vals
            && Struck(id, a.x, a.y, m.victim, players.vals[m.victim]) && players.vals[m.victim].hp - MELEE_DAMAGE <= 0)
      && r.0.vals[id] == a.(lastMeleeAttack := now,
                            coins := a.coins + |r.2.killedEnemies| + Bounty(players, r.2.killedPlayers))
  {
    var a := players.vals[id].(lastMeleeAttack := now);
    var players1 := players.Put(id, a);
    MeleeEnemiesEffect(enemies, enemies.keys, a.x, a.y, []);
    MeleePlayersHits(players1, players1.keys, id, a.x, a.y, a.name, 0, []);
    MeleePlayersKills(players1, players1.keys, id, a.x, a.y, a.name, 0, []);
    MeleePlayersBounty(players1, players1.keys, id, a.x, a.y, a.name, 0, []);
    var (players2, gained, killedPlayers) := MeleePlayers(players1, players1.keys, id, a.x, a.y, a.name, 0, []);
    assert killedPlayers[0..] == killedPlayers;
    BountyReadsCoinsOnly(players1, players, killedPlayers);
  }

  /**
   * Nobody moves in a melee attack, and every player it reports killed is
   * registered.
   */
  lemma MeleeAttackFrame(players: Table<PlayerId, Player>, enemies: Table<EnemyId, Enemy>, id: PlayerId, now: int)
    requires players.Valid() && enemies.Valid() && CanAttack(players, id, now, true)
    ensures var r := MeleeAttack(players, enemies, id, now).value;
      && (forall k :: k in players.vals ==>
            k in r.0.vals && r.0.vals[k].x == players.vals[k].x && r.0.vals[k].y == players.vals[k].y)
      && (forall k :: k in enemies.vals ==>
            k in r.1.vals && r.1.vals[k].x == enemies.vals[k].x && r.1.vals[k].y == enemies.vals[k].y)
      && (forall j :: 0 <= j < |r.2.killedPlayers| ==> r.2.killedPlayers[j].victim in players.vals)
  {
    var a := players.vals[id].(lastMeleeAttack := now);
    var players1 := players.Put(id, a);
    MeleeEnemiesEffect(enemies, enemies.keys, a.x, a.y, []);
    MeleePlayersHits(players1, players1.keys, id, a.x, a.y, a.name, 0, []);
    MeleePlayersKills(players1, players1.keys, id, a.x, a.y, a.name, 0, []);
    var (players2, gained, killedPlayers) := MeleePlayers(players1, players1.keys, id, a.x, a.y, a.name, 0, []);
    assert killedPlayers[0..] == killedPlayers;
    forall j | 0 <= j < |killedPlayers| ensures killedPlayers[j].victim in players.vals {
      assert killedPlayers[j] in killedPlayers;
    }
  }

  /** The bullet `rangedAttack` creates: from the player, velocity `8 * (vx, vy)`, owned by the player. */
  function RangedShot(id: PlayerId, p: Player, vx: real, vy: real): (s: BulletSpec)
    ensures s.x == p.x && s.y == p.y && s.ownerId == PlayerRef(id)
    ensures s.vx == vx * BULLET_SPEED && s.vy == vy * BULLET_SPEED
    ensures s.damage == RANGED_DAMAGE && s.fromEnemy == Some(false) && s.life.None?
  {
    BulletSpec(p.x, p.y, vx * BULLET_SPEED, vy * BULLET_SPEED, RANGED_DAMAGE, Some(false), PlayerRef(id), None)
  }

  /**
   * `rangedAttack(id, {vx, vy}, bulletManager)`: nothing when the shooter is
   * unknown, dead or cooling down; otherwise its `lastRangedAttack` becomes
   * `now` and one bullet is requested. The direction is not normalised.
   */
  function RangedAttack(players: Table<PlayerId, Player>, id: PlayerId, vx: real, vy: real, now: int)
    : (r: Option<(Table<PlayerId, Player>, BulletSpec)>)
    requires players.Valid()
    ensures r.None? <==> !CanAttack(players, id, now, false)
    ensures r.Some? ==>
      && r.value.0.Valid() && r.value.0.keys == players.keys
      && r.value.0.vals == players.vals[id := players.vals[id].(lastRangedAttack := now)]
      && r.value.1 == RangedShot(id, players.vals[id], vx, vy)
  {
    if !CanAttack(players, id, now, false) then None
    else
      var p := players.vals[id];
      Some((players.Put(id, p.(lastRangedAttack := now)), RangedShot(id, p, vx, vy)))
  }

  // ---------------------------------------------------------------------
  // Death and respawn

  /**
   * The fraction of coins the respawn timer keeps. The timer multiplies by
   * its own literal 0.5, not by `RESPAWN_COINS_DROP` (which happens to be
   * 0.5 as well and governs the coins dropped at death).
   */
  const RESPAWN_KEEP: real := 0.5

  /** `Math.floor(c * 0.5)` on a whole number of coins is integer halving. */
  lemma HalfFloor(c: nat)
    ensures (c as real * 0.5).Floor == c / 2
  {
    var q := c / 2;
    var m := c % 2;
    assert c == 2 * q + m;
    assert c as real * 0.5 == q as real + m as real * 0.5;
    assert 0.0 <= m as real * 0.5 < 1.0;
  }

  /** `handlePlayerDeath` sets hp to 0 and changes nothing else. */
  function Died(p: Player): (d: Player)
    ensures d.hp <= 0 && d.(hp := p.hp) == p
  {
    p.(hp := 0)
  }

  /**
   * The delayed respawn: full health, a fresh position drawn in
   * `[100, WORLD_SIZE - 100)`, and half the coins rounded down.
   */
  function Respawned(p: Player, rx: Roll, ry: Roll): (q: Player)
    ensures q.hp == PLAYER_MAX_HP && q.coins == p.coins / 2
    ensures q == p.(hp := q.hp, x := q.x, y := q.y, coins := q.coins)
    ensures 100.0 <= q.x < WORLD_SIZE - 100.0 && 100.0 <= q.y < WORLD_SIZE - 100.0
    ensures PlayerInBounds(q)
  {
    HalfFloor(p.coins);
    p.(hp := PLAYER_MAX_HP,
       x := SpawnCoord(rx, WORLD_SIZE - 200.0, 100.0), y := SpawnCoord(ry, WORLD_SIZE - 200.0, 100.0),
       coins := (p.coins as real * RESPAWN_KEEP).Floor)
  }

  /**
   * The timer `handlePlayerDeath` sets: when it fires and the player is
   * still registered, it respawns; otherwise nothing happens.
   */
  function Respawn(t: Table<PlayerId, Player>, id: PlayerId, rx: Roll, ry: Roll): (r: Table<PlayerId, Player>)
    requires t.Valid()
    ensures r.Valid() && r.keys == t.keys
    ensures id !in t.vals ==> r == t
    ensures id in t.vals ==> r.vals == t.vals[id := Respawned(t.vals[id], rx, ry)]
    ensures AllInBounds(t) ==> AllInBounds(r)
  {
    if id in t.vals then t.Put(id, Respawned(t.vals[id], rx, ry)) else t
  }
}
