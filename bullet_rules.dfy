/**
 * The rules of the bullet manager as functions on values: creating a bullet
 * and one bullet's turn of the per-tick update. The manager class in module
 * Server runs them in place and is proved equal to them.
 */
module BulletRules {
  import opened Wrappers
  import opened Config
  import opened Geometry
  import opened Tables
  import opened Entities
  import EnemyRules

  // ---------------------------------------------------------------------
  // Creation

  /**
   * The record `createBullet(spec)` stores under `id`: `fromEnemy || false`,
   * `life || BULLET_LIFE` (a life of 0 counts as missing), `createdAt` the
   * current time; the rest is copied.
   */
  function NewBullet(id: BulletId, spec: BulletSpec, now: int): (b: Bullet)
    ensures b.id == id && b.createdAt == now
    ensures b.x == spec.x && b.y == spec.y && b.vx == spec.vx && b.vy == spec.vy
    ensures b.damage == spec.damage && b.ownerId == spec.ownerId
    ensures b.fromEnemy <==> spec.fromEnemy == Some(true)
    ensures b.life == if spec.life.Some? && spec.life.value != 0 then spec.life.value else BULLET_LIFE
  {
    Bullet(id, spec.x, spec.y, spec.vx, spec.vy, spec.damage,
      spec.fromEnemy.Some? && spec.fromEnemy.value,
      spec.ownerId,
      if spec.life.Some? && spec.life.value != 0 then spec.life.value else BULLET_LIFE,
      now)
  }

  /** `createBullet(spec)`: stores the bullet under `nextId` and increments it. */
  function Create(t: Table<BulletId, Bullet>, nextId: nat, spec: BulletSpec, now: int): (r: (Table<BulletId, Bullet>, nat))
    requires t.Valid() && EnemyRules.IdsBelow(t, nextId)
    ensures r.0.Valid() && EnemyRules.IdsBelow(r.0, r.1) && r.1 == nextId + 1
    ensures r.0.keys == t.keys + [nextId]
    ensures r.0.vals == t.vals[nextId := NewBullet(nextId, spec, now)]
  {
    (t.Put(nextId, NewBullet(nextId, spec, now)), nextId + 1)
  }

  /** The `createBullet` calls of one enemy pass, in order. */
  function CreateAll(t: Table<BulletId, Bullet>, nextId: nat, specs: seq<BulletSpec>, now: int): (r: (Table<BulletId, Bullet>, nat))
    requires t.Valid() && EnemyRules.IdsBelow(t, nextId)
    ensures r.0.Valid() && EnemyRules.IdsBelow(r.0, r.1) && r.1 == nextId + |specs|
    ensures r.0.Size() == t.Size() + |specs| && t.keys <= r.0.keys
    ensures forall k :: k in t.vals ==> k in r.0.vals && r.0.vals[k] == t.vals[k]
    decreases |specs|
  {
    if specs == [] then (t, nextId)
    else
      var (t1, n1) := Create(t, nextId, specs[0], now);
      CreateAll(t1, n1, specs[1..], now)
  }

  /** Creating no bullet leaves the table and the counter as they were. A proof aid that unfolds `CreateAll` once. */
  lemma CreateAllNone(t: Table<BulletId, Bullet>, nextId: nat, now: int)
    requires t.Valid() && EnemyRules.IdsBelow(t, nextId)
    ensures CreateAll(t, nextId, [], now) == (t, nextId)
  {
  }

  /** Creating one bullet is one `createBullet` call. A proof aid that unfolds `CreateAll` twice. */
  lemma CreateAllOne(t: Table<BulletId, Bullet>, nextId: nat, spec: BulletSpec, now: int)
    requires t.Valid() && EnemyRules.IdsBelow(t, nextId)
    ensures CreateAll(t, nextId, [spec], now) == Create(t, nextId, spec, now)
  {
    var c := Create(t, nextId, spec, now);
    assert CreateAll(t, nextId, [spec], now) == CreateAll(c.0, c.1, [], now);
  }

  // ---------------------------------------------------------------------
  // Flight

  /** The step at the start of a bullet's turn: it moves by its velocity and loses one life. */
  function Advanced(b: Bullet): (a: Bullet)
    ensures a.life == b.life - 1
    ensures a.(x := b.x, y := b.y, life := b.life) == b
  {
    b.(x := b.x + b.vx, y := b.y + b.vy, life := b.life - 1)
  }

  /** A bullet is removed when its life is used up or it has left `[0, WORLD_SIZE]` on either axis. */
  predicate Expired(b: Bullet): (gone: bool)
    ensures b.life <= 0 ==> gone
    ensures 0.0 <= b.x <= WORLD_SIZE && 0.0 <= b.y <= WORLD_SIZE ==> (gone <==> b.life <= 0)
    ensures !gone ==> 0.0 <= b.x <= WORLD_SIZE && 0.0 <= b.y <= WORLD_SIZE
  {
    b.life <= 0 || b.x < 0.0 || b.x > WORLD_SIZE || b.y < 0.0 || b.y > WORLD_SIZE
  }

  /** `n` turns of flight. */
  function Flown(b: Bullet, n: nat): Bullet
    decreases n
  {
    if n == 0 then b else Flown(Advanced(b), n - 1)
  }

  lemma {:induction false} FlownFields(b: Bullet, n: nat)
    ensures Flown(b, n) == b.(x := b.x + n as real * b.vx, y := b.y + n as real * b.vy, life := b.life - n)
    decreases n
  {
    if n > 0 {
      FlownFields(Advanced(b), n - 1);
    }
  }

  /**
   * A bullet created with life `L >= 1` has used it up after `L` turns, so it
   * is removed at its `L`-th turn at the latest; a motionless one inside the
   * world is removed exactly then, and survives every earlier turn.
   */
  lemma BulletLifetime(b: Bullet, n: nat)
    requires b.life >= 1
    ensures n == b.life ==> Expired(Flown(b, n))
    ensures b.vx == 0.0 && b.vy == 0.0 && 0.0 <= b.x <= WORLD_SIZE && 0.0 <= b.y <= WORLD_SIZE ==>
      (Expired(Flown(b, n)) <==> n >= b.life)
  {
    FlownFields(b, n);
  }

  // ---------------------------------------------------------------------
  // Hits

  /** A bullet at `(sx, sy)` hits an entity at `(x, y)` within the collision range. */
  predicate Hits(sx: real, sy: real, x: real, y: real) {
    Within(sx, sy, x, y, BULLET_COLLISION_RANGE)
  }

  /** A player the bullet can hit: alive, in range, and not `skip` (the owner of a player bullet). */
  predicate PlayerTarget(t: Table<PlayerId, Player>, k: PlayerId, sx: real, sy: real, skip: Option<PlayerId>) {
    k in t.vals && t.vals[k].hp > 0 && Hits(sx, sy, t.vals[k].x, t.vals[k].y) && skip != Some(k)
  }

  /** The scan of the players loop: the first player of `ks` the bullet can hit. */
  function FirstPlayerHit(t: Table<PlayerId, Player>, ks: seq<PlayerId>, sx: real, sy: real, skip: Option<PlayerId>): (r: Option<nat>)
    ensures r.None? <==> forall i :: 0 <= i < |ks| ==> !PlayerTarget(t, ks[i], sx, sy, skip)
    ensures r.Some? ==>
      && r.value < |ks| && PlayerTarget(t, ks[r.value], sx, sy, skip)
      && forall i :: 0 <= i < r.value ==> !PlayerTarget(t, ks[i], sx, sy, skip)
    decreases |ks|
  {
    if ks == [] then None
    else if PlayerTarget(t, ks[0], sx, sy, skip) then Some(0)
    else
      match FirstPlayerHit(t, ks[1..], sx, sy, skip)
      case None => None
      case Some(i) => Some(i + 1)
  }

  /** An enemy the bullet hits: in range; dead enemies still in the table are hit too. */
  predicate EnemyTarget(t: Table<EnemyId, Enemy>, k: EnemyId, sx: real, sy: real) {
    k in t.vals && Hits(sx, sy, t.vals[k].x, t.vals[k].y)
  }

  /** The scan of the enemies loop: the first enemy of `ks` the bullet hits. */
  function FirstEnemyHit(t: Table<EnemyId, Enemy>, ks: seq<EnemyId>, sx: real, sy: real): (r: Option<nat>)
    ensures r.None? <==> forall i :: 0 <= i < |ks| ==> !EnemyTarget(t, ks[i], sx, sy)
    ensures r.Some? ==>
      && r.value < |ks| && EnemyTarget(t, ks[r.value], sx, sy)
      && forall i :: 0 <= i < r.value ==> !EnemyTarget(t, ks[i], sx, sy)
    decreases |ks|
  {
    if ks == [] then None
    else if EnemyTarget(t, ks[0], sx, sy) then Some(0)
    else
      match FirstEnemyHit(t, ks[1..], sx, sy)
      case None => None
      case Some(i) => Some(i + 1)
  }

  /** `shooter?.name || 'unknown player'` for `players.get(ownerId)`. */
  function ShooterName(t: Table<PlayerId, Player>, owner: Ref): (n: string)
    ensures n != ""
    ensures owner.PlayerRef? && owner.pid in t.vals && t.vals[owner.pid].name != "" ==> n == t.vals[owner.pid].name
  {
    match owner
    case PlayerRef(s) => if s in t.vals && t.vals[s].name != "" then t.vals[s].name else "unknown player"
    case EnemyRef(_) => "unknown player"
  }

  // ---------------------------------------------------------------------
  // One bullet's turn

  /** The state one pass of `update` threads through its turns. */
  datatype BulletPass = BulletPass(
    bullets: Table<BulletId, Bullet>,
    players: Table<PlayerId, Player>,
    enemies: Table<EnemyId, Enemy>,
    killedPlayers: seq<PlayerKill>,
    killedEnemies: seq<EnemyKill>)

  ghost predicate PassValid(st: BulletPass) {
    st.bullets.Valid() && st.players.Valid() && st.enemies.Valid()
  }

  /** The player a bullet may not hit: the shooter of a player bullet. */
  function Skip(owner: Ref): Option<PlayerId> {
    if owner.PlayerRef? then Some(owner.pid) else None
  }

  /** The player the players loop strikes: the first target in iteration order. */
  function PlayerHitBy(t: Table<PlayerId, Player>, b: Bullet, skip: Option<PlayerId>): (r: Option<PlayerId>)
    ensures r.Some? ==> PlayerTarget(t, r.value, b.x, b.y, skip)
  {
    match FirstPlayerHit(t, t.keys, b.x, b.y, skip)
    case None => None
    case Some(i) => Some(t.keys[i])
  }

  /** The enemy the enemies loop strikes: the first one in iteration order within range. */
  function EnemyHitBy(t: Table<EnemyId, Enemy>, b: Bullet): (r: Option<EnemyId>)
    ensures r.Some? ==> EnemyTarget(t, r.value, b.x, b.y)
  {
    match FirstEnemyHit(t, t.keys, b.x, b.y)
    case None => None
    case Some(i) => Some(t.keys[i])
  }

  /** `u` is `t` with the player under `k` down by `dmg` hp and nothing else changed. */
  ghost predicate Struck(t: Table<PlayerId, Player>, u: Table<PlayerId, Player>, k: PlayerId, dmg: int)
    requires k in t.vals
  {
    u.keys == t.keys && u.vals == t.vals[k := t.vals[k].(hp := t.vals[k].hp - dmg)]
  }

  /**
   * The player part of a turn: the first target in iteration order loses
   * the bullet's damage and the bullet is deleted; a kill is reported with
   * `shooterId` (null for an enemy bullet).
   */
  function StrikePlayer(st: BulletPass, id: BulletId, b: Bullet, skip: Option<PlayerId>, killerName: string, shooter: Option<Ref>): (r: BulletPass)
    requires PassValid(st)
    ensures PassValid(r) && r.enemies == st.enemies && r.killedEnemies == st.killedEnemies
    ensures r.bullets == st.bullets || r.bullets == st.bullets.Delete(id)
  {
    StrikeVictim(st, id, b, PlayerHitBy(st.players, b, skip), killerName, shooter)
  }

  /** The player part of a turn once the players loop has found `victim`, or nobody. */
  function StrikeVictim(st: BulletPass, id: BulletId, b: Bullet, victim: Option<PlayerId>, killerName: string, shooter: Option<Ref>): (r: BulletPass)
    requires PassValid(st) && (victim.Some? ==> victim.value in st.players.vals)
    ensures PassValid(r) && r.enemies == st.enemies && r.killedEnemies == st.killedEnemies
    ensures r.bullets == st.bullets || r.bullets == st.bullets.Delete(id)
  {
    match victim
    case None => st
    case Some(pid) =>
      var p := st.players.vals[pid].(hp := st.players.vals[pid].hp - b.damage);
      st.(bullets := st.bullets.Delete(id), players := st.players.Put(pid, p),
          killedPlayers := st.killedPlayers + if p.hp <= 0 then [PlayerKill(pid, killerName, shooter)] else [])
  }

  lemma StrikePlayerEffect(st: BulletPass, id: BulletId, b: Bullet, skip: Option<PlayerId>, killerName: string, shooter: Option<Ref>)
    requires PassValid(st)
    ensures var r := StrikePlayer(st, id, b, skip, killerName, shooter); var h := PlayerHitBy(st.players, b, skip);
      && (h.None? ==> r == st)
      && (h.Some? ==>
            && r.bullets == st.bullets.Delete(id)
            && Struck(st.players, r.players, h.value, b.damage)
            && r.killedPlayers == st.killedPlayers +
                 if r.players.vals[h.value].hp <= 0 then [PlayerKill(h.value, killerName, shooter)] else [])
  {
    StrikeVictimEffect(st, id, b, PlayerHitBy(st.players, b, skip), killerName, shooter);
  }

  lemma StrikeVictimEffect(st: BulletPass, id: BulletId, b: Bullet, h: Option<PlayerId>, killerName: string, shooter: Option<Ref>)
    requires PassValid(st) && (h.Some? ==> h.value in st.players.vals)
    ensures var r := StrikeVictim(st, id, b, h, killerName, shooter);
      && (h.None? ==> r == st)
      && (h.Some? ==>
            && r.bullets == st.bullets.Delete(id)
            && Struck(st.players, r.players, h.value, b.damage)
            && r.killedPlayers == st.killedPlayers +
                 if r.players.vals[h.value].hp <= 0 then [PlayerKill(h.value, killerName, shooter)] else [])
  {
    if h.Some? {
      var pid := h.value;
      var p := st.players.vals[pid].(hp := st.players.vals[pid].hp - b.damage);
      var u := st.players.Put(pid, p);
      assert u.vals[pid] == p;
      assert Struck(st.players, u, pid, b.damage);
    }
  }

  /**
   * The enemy part of a player bullet's turn: the first enemy it reaches
   * takes the damage through `takeDamage` and the bullet is deleted; a kill
   * is reported with the bullet's owner.
   */
  function StrikeEnemy(st: BulletPass, id: BulletId, b: Bullet): (r: BulletPass)
    requires PassValid(st)
    ensures PassValid(r) && r.players == st.players && r.killedPlayers == st.killedPlayers
    ensures r.bullets == st.bullets || r.bullets == st.bullets.Delete(id)
  {
    match EnemyHitBy(st.enemies, b)
    case None => st
    case Some(eid) =>
      var d := EnemyRules.TakeDamage(st.enemies, eid, b.damage);
      st.(bullets := st.bullets.Delete(id), enemies := d.0,
          killedEnemies := st.killedEnemies + if d.1 then [EnemyKill(eid, b.ownerId)] else [])
  }

  lemma StrikeEnemyEffect(st: BulletPass, id: BulletId, b: Bullet)
    requires PassValid(st)
    ensures var r := StrikeEnemy(st, id, b); var h := EnemyHitBy(st.enemies, b);
      && r.enemies.keys == st.enemies.keys
      && (h.None? ==> r == st)
      && (h.Some? ==>
            && r.bullets == st.bullets.Delete(id)
            && r.enemies.vals == st.enemies.vals[h.value := st.enemies.vals[h.value].(hp := st.enemies.vals[h.value].hp - b.damage)]
            && r.killedEnemies == st.killedEnemies +
                 if r.enemies.vals[h.value].hp <= 0 then [EnemyKill(h.value, b.ownerId)] else [])
  {
  }

  /** Taking hp from a player does not change the name `ShooterName` finds. */
  lemma ShooterNameKeeps(t: Table<PlayerId, Player>, k: PlayerId, hp: int, owner: Ref)
    requires k in t.vals
    ensures ShooterName(t.Put(k, t.vals[k].(hp := hp)), owner) == ShooterName(t, owner)
  {
  }

  /**
   * `StrikePlayer` from the outcome of the players loop: the player it
   * struck, the table it left and the kill it reported.
   */
  lemma StrikePlayerOf(st: BulletPass, id: BulletId, b: Bullet, skip: Option<PlayerId>, killerName: string, shooter: Option<Ref>,
                       players: Table<PlayerId, Player>, victim: Option<PlayerId>, kill: Option<PlayerKill>)
    requires PassValid(st) && victim == PlayerHitBy(st.players, b, skip)
    requires victim.None? ==> players == st.players && kill.None?
    requires victim.Some? ==>
      && players == st.players.Put(victim.value, st.players.vals[victim.value].(hp := st.players.vals[victim.value].hp - b.damage))
      && kill == if players.vals[victim.value].hp <= 0 then Some(PlayerKill(victim.value, killerName, shooter)) else None
    ensures StrikePlayer(st, id, b, skip, killerName, shooter)
         == st.(bullets := if victim.Some? then st.bullets.Delete(id) else st.bullets, players := players,
                killedPlayers := st.killedPlayers + if kill.Some? then [kill.value] else [])
  {
    assert StrikePlayer(st, id, b, skip, killerName, shooter) == StrikeVictim(st, id, b, victim, killerName, shooter);
    StrikeVictimOf(st, id, b, killerName, shooter, players, victim, kill);
  }

  /** `StrikeVictim` from the table the players loop left and the kill it reported. */
  lemma StrikeVictimOf(st: BulletPass, id: BulletId, b: Bullet, killerName: string, shooter: Option<Ref>,
                       players: Table<PlayerId, Player>, victim: Option<PlayerId>, kill: Option<PlayerKill>)
    requires PassValid(st) && (victim.Some? ==> victim.value in st.players.vals)
    requires victim.None? ==> players == st.players && kill.None?
    requires victim.Some? ==>
      && players == st.players.Put(victim.value, st.players.vals[victim.value].(hp := st.players.vals[victim.value].hp - b.damage))
      && kill == if players.vals[victim.value].hp <= 0 then Some(PlayerKill(victim.value, killerName, shooter)) else None
    ensures StrikeVictim(st, id, b, victim, killerName, shooter)
         == st.(bullets := if victim.Some? then st.bullets.Delete(id) else st.bullets, players := players,
                killedPlayers := st.killedPlayers + if kill.Some? then [kill.value] else [])
  {
    if victim.Some? {
      var p := st.players.vals[victim.value].(hp := st.players.vals[victim.value].hp - b.damage);
      assert players.vals[victim.value] == p;
    }
  }

  /**
   * `StrikeEnemy` from the outcome of the enemies loop: the enemy it struck,
   * the table `takeDamage` left and whether it killed.
   */
  lemma StrikeEnemyOf(st: BulletPass, id: BulletId, b: Bullet, enemies: Table<EnemyId, Enemy>, struck: Option<EnemyId>, killed: bool)
    requires PassValid(st) && struck == EnemyHitBy(st.enemies, b)
    requires struck.None? ==> enemies == st.enemies && !killed
    requires struck.Some? ==> (enemies, killed) == EnemyRules.TakeDamage(st.enemies, struck.value, b.damage)
    ensures StrikeEnemy(st, id, b)
         == st.(bullets := if struck.Some? then st.bullets.Delete(id) else st.bullets, enemies := enemies,
                killedEnemies := st.killedEnemies + if killed then [EnemyKill(struck.value, b.ownerId)] else [])
  {
  }

  /** A player no bullet may hurt: a dead one, or the owner of a player bullet. */
  predicate Spared(p: Player, k: PlayerId, b: Bullet) {
    p.hp <= 0 || (!b.fromEnemy && b.ownerId == PlayerRef(k))
  }

  /** The player the turn of the bullet under `id` strikes, if any. */
  function TurnVictim(st: BulletPass, id: BulletId): (v: Option<PlayerId>)
    requires id in st.bullets.vals
    ensures v.Some? ==> v.value in st.players.vals && !Spared(st.players.vals[v.value], v.value, st.bullets.vals[id])
  {
    var b := Advanced(st.bullets.vals[id]);
    if Expired(b) then None
    else PlayerHitBy(st.players, b, if b.fromEnemy then None else Skip(b.ownerId))
  }

  /** A reported bullet kill: the victim is at 0 hp or below, and the report is well formed. */
  ghost predicate KilledIn(t: Table<PlayerId, Player>, k: PlayerKill) {
    && k.victim in t.vals && t.vals[k.victim].hp <= 0
    && (k.shooterId.None? ==> k.killerName == "enemy bullet")
  }

  /**
   * One iteration of the loop of `update` for the bullet under `id`. An
   * enemy bullet strikes the first living player it reaches. A player bullet
   * strikes the first enemy it reaches and then, in the same turn, also the
   * first living player other than its owner that it reaches.
   */
  function BulletTurn(st: BulletPass, id: BulletId): (r: BulletPass)
    requires PassValid(st) && id in st.bullets.vals
    ensures PassValid(r)
    ensures r.bullets.vals.Keys <= st.bullets.vals.Keys
    ensures forall k :: k in st.bullets.vals && k != id ==> k in r.bullets.vals && r.bullets.vals[k] == st.bullets.vals[k]
  {
    var b := Advanced(st.bullets.vals[id]);
    if Expired(b) then st.(bullets := st.bullets.Delete(id))
    else
      var st1 := st.(bullets := st.bullets.Put(id, b));
      if b.fromEnemy then
        StrikePlayer(st1, id, b, None, "enemy bullet", None)
      else
        var st2 := StrikeEnemy(st1, id, b);
        StrikePlayer(st2, id, b, Skip(b.ownerId), ShooterName(st2.players, b.ownerId), Some(b.ownerId))
  }

  /** The turn of the bullet under `id` hits: an enemy (a player bullet only) or a player. */
  predicate TurnHits(st: BulletPass, id: BulletId)
    requires id in st.bullets.vals
  {
    var b := Advanced(st.bullets.vals[id]);
    !Expired(b) && ((!b.fromEnemy && EnemyHitBy(st.enemies, b).Some?) || TurnVictim(st, id).Some?)
  }

  /**
   * The life of the bullet under `id` over one turn: it is removed when it
   * expires or hits something; otherwise it is stored advanced by one step.
   * An enemy bullet never touches the enemies.
   */
  lemma TurnLifecycle(st: BulletPass, id: BulletId)
    requires PassValid(st) && id in st.bullets.vals
    ensures var r := BulletTurn(st, id); var b := Advanced(st.bullets.vals[id]);
      && (Expired(b) ==> r == st.(bullets := st.bullets.Delete(id)))
      && (id in r.bullets.vals <==> !Expired(b) && !TurnHits(st, id))
      && (id in r.bullets.vals ==> r.bullets == st.bullets.Put(id, b))
      && (id !in r.bullets.vals ==> r.bullets == st.bullets.Delete(id))
      && (b.fromEnemy ==> r.enemies == st.enemies && r.killedEnemies == st.killedEnemies)
  {
    var b := Advanced(st.bullets.vals[id]);
    if !Expired(b) {
      var st1 := st.(bullets := st.bullets.Put(id, b));
      assert st1.bullets.Delete(id) == st.bullets.Delete(id);
      if b.fromEnemy {
        StrikePlayerEffect(st1, id, b, None, "enemy bullet", None);
      } else {
        StrikeEnemyEffect(st1, id, b);
        var st2 := StrikeEnemy(st1, id, b);
        StrikePlayerEffect(st2, id, b, Skip(b.ownerId), ShooterName(st2.players, b.ownerId), Some(b.ownerId));
      }
    }
  }

  /**
   * A turn changes players only through its victim: without one, players and
   * reported kills stay as they were; with one, exactly the victim loses the
   * bullet's damage, and at most one kill, of the victim, is reported.
   */
  lemma TurnVictimEffect(st: BulletPass, id: BulletId)
    requires PassValid(st) && id in st.bullets.vals
    ensures var r := BulletTurn(st, id);
      var v := TurnVictim(st, id);
      && (v.None? ==> r.players == st.players && r.killedPlayers == st.killedPlayers)
      && (v.Some? ==>
            && Struck(st.players, r.players, v.value, st.bullets.vals[id].damage)
            && (r.killedPlayers == st.killedPlayers
                || (r.killedPlayers == st.killedPlayers + [r.killedPlayers[|st.killedPlayers|]]
                    && r.killedPlayers[|st.killedPlayers|].victim == v.value
                    && KilledIn(r.players, r.killedPlayers[|st.killedPlayers|]))))
  {
    var b := Advanced(st.bullets.vals[id]);
    if !Expired(b) {
      var st1 := st.(bullets := st.bullets.Put(id, b));
      if b.fromEnemy {
        StrikePlayerEffect(st1, id, b, None, "enemy bullet", None);
      } else {
        var st2 := StrikeEnemy(st1, id, b);
        StrikePlayerEffect(st2, id, b, Skip(b.ownerId), ShooterName(st2.players, b.ownerId), Some(b.ownerId));
      }
    }
  }

  /** The loop of `update` over the bullet ids `ks`. */
  function RunBullets(st: BulletPass, ks: seq<BulletId>): (r: BulletPass)
    requires PassValid(st) && Distinct(ks) && forall k :: k in ks ==> k in st.bullets.vals
    ensures PassValid(r)
    decreases |ks|
  {
    if ks == [] then st
    else
      var st1 := BulletTurn(st, ks[0]);
      DistinctTail(ks);
      RunBullets(st1, ks[1..])
  }

  // ---------------------------------------------------------------------
  // Properties of a pass

  /**
   * The bullets over a pass of the loop over `ks`: a bullet the pass does
   * not visit is left as it was; a visited one is gone when its advanced
   * self has expired, and one still there is its advanced self, not expired.
   */
  lemma {:induction false} RunSurvivors(st: BulletPass, ks: seq<BulletId>)
    requires PassValid(st) && Distinct(ks) && forall k :: k in ks ==> k in st.bullets.vals
    ensures var r := RunBullets(st, ks);
      && r.bullets.vals.Keys <= st.bullets.vals.Keys
      && (forall k :: k in st.bullets.vals && k !in ks ==> k in r.bullets.vals && r.bullets.vals[k] == st.bullets.vals[k])
      && (forall k :: k in ks && k in r.bullets.vals ==>
            r.bullets.vals[k] == Advanced(st.bullets.vals[k]) && !Expired(r.bullets.vals[k]))
      && (forall k :: k in ks && Expired(Advanced(st.bullets.vals[k])) ==> k !in r.bullets.vals)
    decreases |ks|
  {
    if ks != [] {
      DistinctTail(ks);
      var id := ks[0];
      var st1 := BulletTurn(st, id);
      TurnLifecycle(st, id);
      RunSurvivors(st1, ks[1..]);
      var r := RunBullets(st, ks);
      assert r == RunBullets(st1, ks[1..]);
      forall k | k in ks && k in r.bullets.vals
        ensures r.bullets.vals[k] == Advanced(st.bullets.vals[k]) && !Expired(r.bullets.vals[k])
      {
        if k == id {
          assert k in st1.bullets.vals;
          assert st1.bullets.vals[k] == Advanced(st.bullets.vals[k]);
        }
      }
    }
  }

  /** `n` whole passes of `update`, each over every bullet in the table. */
  ghost function Passes(st: BulletPass, n: nat): (r: BulletPass)
    requires PassValid(st)
    ensures PassValid(r)
    decreases n
  {
    if n == 0 then st
    else
      var st1 := RunBullets(st, st.bullets.keys);
      Passes(st1, n - 1)
  }

  /**
   * After `n` passes a bullet still in the table is the original one flown
   * `n` steps; so a bullet created with life `L` is gone after `L` passes.
   */
  lemma {:induction false} PassesFly(st: BulletPass, n: nat)
    requires PassValid(st)
    ensures var r := Passes(st, n);
      && r.bullets.vals.Keys <= st.bullets.vals.Keys
      && (forall k :: k in r.bullets.vals ==> r.bullets.vals[k] == Flown(st.bullets.vals[k], n))
      && (forall k :: k in st.bullets.vals && 0 < n && st.bullets.vals[k].life <= n ==> k !in r.bullets.vals)
    decreases n
  {
    if n > 0 {
      var st1 := RunBullets(st, st.bullets.keys);
      RunSurvivors(st, st.bullets.keys);
      PassesFly(st1, n - 1);
      var r := Passes(st, n);
      assert r == Passes(st1, n - 1);
      forall k | k in r.bullets.vals ensures r.bullets.vals[k] == Flown(st.bullets.vals[k], n) {
        assert k in st1.bullets.vals;
        assert st1.bullets.vals[k] == Advanced(st.bullets.vals[k]);
      }
      forall k | k in st.bullets.vals && st.bullets.vals[k].life <= n ensures k !in r.bullets.vals {
        var b := st.bullets.vals[k];
        if n == 1 {
          assert Expired(Advanced(b));
        } else if k in st1.bullets.vals {
          assert st1.bullets.vals[k].life == b.life - 1;
        }
      }
    }
  }

  /** Every kill reported so far names a player now at 0 hp or below. */
  ghost predicate KillsDead(st: BulletPass) {
    forall j :: 0 <= j < |st.killedPlayers| ==> KilledIn(st.players, st.killedPlayers[j])
  }

  lemma TurnKillsAreDead(st: BulletPass, id: BulletId)
    requires PassValid(st) && id in st.bullets.vals && KillsDead(st)
    ensures KillsDead(BulletTurn(st, id))
  {
    var r := BulletTurn(st, id);
    TurnVictimEffect(st, id);
    var victim := TurnVictim(st, id);
    forall j | 0 <= j < |r.killedPlayers| ensures KilledIn(r.players, r.killedPlayers[j]) {
      if j < |st.killedPlayers| {
        assert r.killedPlayers[j] == st.killedPlayers[j];
        assert KilledIn(st.players, st.killedPlayers[j]);
        assert victim.Some? ==> victim.value != st.killedPlayers[j].victim;
      }
    }
  }

  /**
   * Every kill a pass reports names a player at 0 hp or below when the pass
   * ends, and one without a shooter is named "enemy bullet".
   */
  lemma {:induction false} RunKillsAreDead(st: BulletPass, ks: seq<BulletId>)
    requires PassValid(st) && Distinct(ks) && forall k :: k in ks ==> k in st.bullets.vals
    requires KillsDead(st)
    ensures KillsDead(RunBullets(st, ks))
    decreases |ks|
  {
    if ks != [] {
      DistinctTail(ks);
      TurnKillsAreDead(st, ks[0]);
      RunKillsAreDead(BulletTurn(st, ks[0]), ks[1..]);
    }
  }

  /** The players' and enemies' tables keep their keys over a pass. */
  lemma {:induction false} RunKeepsKeys(st: BulletPass, ks: seq<BulletId>)
    requires PassValid(st) && Distinct(ks) && forall k :: k in ks ==> k in st.bullets.vals
    ensures var r := RunBullets(st, ks);
      r.players.keys == st.players.keys && r.players.vals.Keys == st.players.vals.Keys
      && r.enemies.keys == st.enemies.keys && r.enemies.vals.Keys == st.enemies.vals.Keys
    decreases |ks|
  {
    if ks != [] {
      DistinctTail(ks);
      TurnKeepsKeys(st, ks[0]);
      RunKeepsKeys(BulletTurn(st, ks[0]), ks[1..]);
    }
  }

  lemma TurnKeepsKeys(st: BulletPass, id: BulletId)
    requires PassValid(st) && id in st.bullets.vals
    ensures var r := BulletTurn(st, id);
      r.players.keys == st.players.keys && r.players.vals.Keys == st.players.vals.Keys
      && r.enemies.keys == st.enemies.keys && r.enemies.vals.Keys == st.enemies.vals.Keys
  {
    TurnVictimEffect(st, id);
    var b := Advanced(st.bullets.vals[id]);
    if !Expired(b) && !b.fromEnemy {
      var st1 := st.(bullets := st.bullets.Put(id, b));
      StrikeEnemyEffect(st1, id, b);
    }
  }

  /**
   * A turn never hurts a dead player or the owner of a player bullet, and
   * changes at most one player's record, by exactly the bullet's damage.
   */
  lemma TurnSparesOwnerAndDead(st: BulletPass, id: BulletId, q: PlayerId)
    requires PassValid(st) && id in st.bullets.vals && q in st.players.vals
    ensures var r := BulletTurn(st, id);
      && (Spared(st.players.vals[q], q, st.bullets.vals[id]) ==> r.players.vals[q] == st.players.vals[q])
      && (r.players.vals[q] == st.players.vals[q] || TurnVictim(st, id) == Some(q))
  {
    TurnVictimEffect(st, id);
  }

  /** `u` differs from `t` only in hp, which never rises, and the dead are untouched. */
  ghost predicate OnlyHpLost(t: Table<PlayerId, Player>, u: Table<PlayerId, Player>) {
    forall q :: q in t.vals ==>
      && q in u.vals
      && u.vals[q] == t.vals[q].(hp := u.vals[q].hp)
      && u.vals[q].hp <= t.vals[q].hp
      && (t.vals[q].hp <= 0 ==> u.vals[q] == t.vals[q])
  }

  /** Every bullet does non-negative damage, as all bullets the game creates do. */
  ghost predicate DamageNonNegative(t: Table<BulletId, Bullet>) {
    forall k :: k in t.vals ==> t.vals[k].damage >= 0
  }

  /** Over a whole pass, the dead lose nothing, and the living lose only hp. */
  lemma {:induction false} RunOnlyDamagesPlayers(st: BulletPass, ks: seq<BulletId>)
    requires PassValid(st) && Distinct(ks) && forall k :: k in ks ==> k in st.bullets.vals
    requires DamageNonNegative(st.bullets)
    ensures OnlyHpLost(st.players, RunBullets(st, ks).players)
    decreases |ks|
  {
    if ks != [] {
      DistinctTail(ks);
      var st1 := BulletTurn(st, ks[0]);
      RunOnlyDamagesPlayers(st1, ks[1..]);
      TurnOnlyDamages(st, ks[0]);
      OnlyHpLostTransitive(st.players, st1.players, RunBullets(st1, ks[1..]).players);
    }
  }

  lemma TurnOnlyDamages(st: BulletPass, id: BulletId)
    requires PassValid(st) && id in st.bullets.vals && st.bullets.vals[id].damage >= 0
    ensures OnlyHpLost(st.players, BulletTurn(st, id).players)
  {
    TurnVictimEffect(st, id);
  }

  lemma OnlyHpLostTransitive(t: Table<PlayerId, Player>, u: Table<PlayerId, Player>, w: Table<PlayerId, Player>)
    requires OnlyHpLost(t, u) && OnlyHpLost(u, w)
    ensures OnlyHpLost(t, w)
  {
  }

  /** Bullets created from specs of non-negative damage keep every bullet's damage non-negative. */
  lemma {:induction false} CreateAllHarmless(t: Table<BulletId, Bullet>, nextId: nat, specs: seq<BulletSpec>, now: int)
    requires t.Valid() && EnemyRules.IdsBelow(t, nextId) && DamageNonNegative(t)
    requires EnemyRules.ShotsHarmless(specs)
    ensures DamageNonNegative(CreateAll(t, nextId, specs, now).0)
    decreases |specs|
  {
    if specs != [] {
      var (t1, n1) := Create(t, nextId, specs[0], now);
      assert EnemyRules.ShotsHarmless(specs[1..]) by {
        forall j | 0 <= j < |specs[1..]| ensures specs[1..][j].damage >= 0 {
          assert specs[1..][j] == specs[j + 1];
        }
      }
      CreateAllHarmless(t1, n1, specs[1..], now);
    }
  }

  /** A turn only removes bullets and keeps the damage of the rest. */
  lemma TurnKeepsBulletDamage(st: BulletPass, id: BulletId)
    requires PassValid(st) && id in st.bullets.vals
    ensures var r := BulletTurn(st, id);
      && r.bullets.vals.Keys <= st.bullets.vals.Keys
      && forall k :: k in r.bullets.vals ==> r.bullets.vals[k].damage == st.bullets.vals[k].damage
  {
    var b := Advanced(st.bullets.vals[id]);
    var r := BulletTurn(st, id);
    if id in r.bullets.vals {
      assert !Expired(b);
      var st1 := st.(bullets := st.bullets.Put(id, b));
      if b.fromEnemy {
        StrikePlayerEffect(st1, id, b, None, "enemy bullet", None);
      } else {
        var st2 := StrikeEnemy(st1, id, b);
        StrikePlayerEffect(st2, id, b, Skip(b.ownerId), ShooterName(st2.players, b.ownerId), Some(b.ownerId));
      }
      assert r.bullets.vals[id] == b;
    }
  }

  /** A turn moves no enemy. */
  lemma TurnKeepsEnemyBounds(st: BulletPass, id: BulletId)
    requires PassValid(st) && id in st.bullets.vals && EnemyRules.AllInBounds(st.enemies)
    ensures EnemyRules.AllInBounds(BulletTurn(st, id).enemies)
  {
    var b := Advanced(st.bullets.vals[id]);
    if !Expired(b) && !b.fromEnemy {
      var st1 := st.(bullets := st.bullets.Put(id, b));
      StrikeEnemyEffect(st1, id, b);
    }
  }

  /**
   * A pass only removes bullets and keeps the damage of the rest, and it
   * moves no enemy.
   */
  lemma {:induction false} RunKeepsBulletsAndEnemies(st: BulletPass, ks: seq<BulletId>)
    requires PassValid(st) && Distinct(ks) && forall k :: k in ks ==> k in st.bullets.vals
    ensures var r := RunBullets(st, ks);
      && r.bullets.vals.Keys <= st.bullets.vals.Keys
      && (DamageNonNegative(st.bullets) ==> DamageNonNegative(r.bullets))
      && (EnemyRules.AllInBounds(st.enemies) ==> EnemyRules.AllInBounds(r.enemies))
    decreases |ks|
  {
    if ks != [] {
      DistinctTail(ks);
      TurnKeepsBulletDamage(st, ks[0]);
      if EnemyRules.AllInBounds(st.enemies) {
        TurnKeepsEnemyBounds(st, ks[0]);
      }
      RunKeepsBulletsAndEnemies(BulletTurn(st, ks[0]), ks[1..]);
    }
  }

  // ---------------------------------------------------------------------
  // Composition, as the managers run these steps one call at a time

  /** Creating the bullets of `s1` and then those of `s2` is creating those of `s1 + s2`. */
  lemma {:induction false} CreateAllAppend(t: Table<BulletId, Bullet>, nextId: nat, s1: seq<BulletSpec>, s2: seq<BulletSpec>, now: int)
    requires t.Valid() && EnemyRules.IdsBelow(t, nextId)
    ensures var m := CreateAll(t, nextId, s1, now);
      CreateAll(t, nextId, s1 + s2, now) == CreateAll(m.0, m.1, s2, now)
    decreases |s1|
  {
    if s1 == [] {
      assert s1 + s2 == s2;
    } else {
      var (t1, n1) := Create(t, nextId, s1[0], now);
      assert (s1 + s2)[0] == s1[0] && (s1 + s2)[1..] == s1[1..] + s2;
      CreateAllAppend(t1, n1, s1[1..], s2, now);
    }
  }

  /** A player target at `i`, with none before it, is the first hit of the scan. */
  lemma FirstPlayerHitAt(t: Table<PlayerId, Player>, ks: seq<PlayerId>, sx: real, sy: real, skip: Option<PlayerId>, i: nat)
    requires i < |ks| && PlayerTarget(t, ks[i], sx, sy, skip)
    requires forall j :: 0 <= j < i ==> !PlayerTarget(t, ks[j], sx, sy, skip)
    ensures FirstPlayerHit(t, ks, sx, sy, skip) == Some(i)
  {
    var r := FirstPlayerHit(t, ks, sx, sy, skip);
    assert r.Some?;
    assert !(r.value < i);
    assert !(i < r.value);
  }

  /** An enemy target at `i`, with none before it, is the first hit of the scan. */
  lemma FirstEnemyHitAt(t: Table<EnemyId, Enemy>, ks: seq<EnemyId>, sx: real, sy: real, i: nat)
    requires i < |ks| && EnemyTarget(t, ks[i], sx, sy)
    requires forall j :: 0 <= j < i ==> !EnemyTarget(t, ks[j], sx, sy)
    ensures FirstEnemyHit(t, ks, sx, sy) == Some(i)
  {
    var r := FirstEnemyHit(t, ks, sx, sy);
    assert r.Some?;
    assert !(r.value < i);
    assert !(i < r.value);
  }
}
