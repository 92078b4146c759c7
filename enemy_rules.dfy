/**
 * The rules of the enemy manager as functions on values: spawning, damage,
 * target choice and one enemy's turn of the per-tick update. The manager class
 * in module Server runs these rules in place and is proved equal to them.
 */
module EnemyRules {
  import opened Wrappers
  import opened Config
  import opened Geometry
  import opened Random
  import opened Tables
  import opened Entities

  // ---------------------------------------------------------------------
  // Spawning

  /** `TYPES[Math.floor(Math.random() * TYPES.length)]`. */
  function KindOfRoll(r: Roll): (k: EnemyKind)
    ensures k in CATALOG
  {
    ScaledBelow(r, 5.0);
    CATALOG[(r * 5.0).Floor]
  }

  /** The record `spawnEnemy` stores under `id`, from its three draws. */
  function SpawnedEnemy(id: EnemyId, kindRoll: Roll, rx: Roll, ry: Roll): (e: Enemy)
    ensures e.id == id && e.kind == KindOfRoll(kindRoll)
    ensures e.hp == e.maxHp == TemplateHp(e.kind)
    ensures e.lastHit == 0 && e.lastShot == 0
    ensures 200.0 <= e.x < WORLD_SIZE - 200.0 && 200.0 <= e.y < WORLD_SIZE - 200.0
  {
    var kind := KindOfRoll(kindRoll);
    Enemy(id, kind,
      SpawnCoord(rx, WORLD_SIZE - 400.0, 200.0), SpawnCoord(ry, WORLD_SIZE - 400.0, 200.0),
      TemplateHp(kind), TemplateHp(kind), 0, 0)
  }

  /** Every id in the table is below the next id to hand out. */
  ghost predicate IdsBelow<V>(t: Table<nat, V>, nextId: nat) {
    forall k :: k in t.vals ==> k < nextId
  }

  /** Enemy positions after any clamp: `[50, WORLD_SIZE - 50]` on both axes. */
  ghost predicate EnemyInBounds(e: Enemy) {
    50.0 <= e.x <= WORLD_SIZE - 50.0 && 50.0 <= e.y <= WORLD_SIZE - 50.0
  }

  ghost predicate AllInBounds(t: Table<EnemyId, Enemy>) {
    forall k :: k in t.vals ==> EnemyInBounds(t.vals[k])
  }

  /**
   * `spawnEnemy()`: the enemy gets id `nextId`, which is then incremented;
   * three draws (template, x, y) are consumed.
   */
  function Spawn(t: Table<EnemyId, Enemy>, nextId: nat, draw: nat -> Roll, pos: nat): (r: (Table<EnemyId, Enemy>, nat, nat))
    requires t.Valid() && IdsBelow(t, nextId)
    ensures r.0.Valid() && IdsBelow(r.0, r.1) && r.1 == nextId + 1 && r.2 == pos + 3
    ensures r.0.keys == t.keys + [nextId]
    ensures r.0.vals == t.vals[nextId := SpawnedEnemy(nextId, draw(pos), draw(pos + 1), draw(pos + 2))]
    ensures AllInBounds(t) ==> AllInBounds(r.0)
  {
    var e := SpawnedEnemy(nextId, draw(pos), draw(pos + 1), draw(pos + 2));
    (t.Put(nextId, e), nextId + 1, pos + 3)
  }

  /**
   * `n` calls of `spawnEnemy()`: the old entries stay as they were, and the
   * new ids are the next `n` values of the counter, so no id is reused.
   */
  function SpawnMany(t: Table<EnemyId, Enemy>, nextId: nat, draw: nat -> Roll, pos: nat, n: nat): (r: (Table<EnemyId, Enemy>, nat, nat))
    requires t.Valid() && IdsBelow(t, nextId)
    ensures r.0.Valid() && IdsBelow(r.0, r.1)
    ensures r.1 == nextId + n && r.2 == pos + n + n + n && r.0.Size() == t.Size() + n
    ensures t.keys <= r.0.keys
    ensures forall k :: k in t.vals ==> k in r.0.vals && r.0.vals[k] == t.vals[k]
    ensures forall k :: k in r.0.vals && k !in t.vals ==> nextId <= k
    ensures AllInBounds(t) ==> AllInBounds(r.0)
    decreases n
  {
    if n == 0 then (t, nextId, pos)
    else
      var (t1, id1, pos1) := Spawn(t, nextId, draw, pos);
      SpawnMany(t1, id1, draw, pos1, n - 1)
  }

  // ---------------------------------------------------------------------
  // Damage

  /**
   * `takeDamage(enemyId, damage)`: an unknown id changes nothing and reports
   * false; otherwise hp drops by `damage` (it may go below zero) and the result
   * says whether hp is now at most 0. The enemy is never removed here.
   */
  function TakeDamage(t: Table<EnemyId, Enemy>, id: EnemyId, damage: int): (r: (Table<EnemyId, Enemy>, bool))
    ensures r.0.keys == t.keys && r.0.vals.Keys == t.vals.Keys
    ensures id !in t.vals ==> r == (t, false)
    ensures id in t.vals ==> r.0.vals == t.vals[id := t.vals[id].(hp := t.vals[id].hp - damage)]
    ensures r.1 <==> id in t.vals && t.vals[id].hp - damage <= 0
  {
    if id in t.vals then
      var e := t.vals[id].(hp := t.vals[id].hp - damage);
      (t.Put(id, e), e.hp <= 0)
    else (t, false)
  }

  // ---------------------------------------------------------------------
  // Target choice

  predicate Alive(p: Player) {
    p.hp > 0
  }

  /**
   * The scan of `findClosestPlayer` over `ks`, carrying the best living player
   * so far with its squared distance; a player replaces it only when strictly
   * closer.
   */
  function ClosestFrom(ps: Table<PlayerId, Player>, ks: seq<PlayerId>, ex: real, ey: real, best: Option<(PlayerId, real)>): (r: Option<(PlayerId, real)>)
    ensures best.Some? ==> r.Some?
    ensures r.Some? ==> r == best || (r.value.0 in ps.vals && Alive(ps.vals[r.value.0]))
    decreases |ks|
  {
    if ks == [] then best
    else
      var k := ks[0];
      var next :=
        if k in ps.vals && Alive(ps.vals[k]) then
          var d := Dist2(ex, ey, ps.vals[k].x, ps.vals[k].y);
          if best.None? || d < best.value.1 then Some((k, d)) else best
        else best;
      ClosestFrom(ps, ks[1..], ex, ey, next)
  }

  /** `findClosestPlayer(enemy, players)`: null when nobody is alive. */
  function ClosestPlayer(ps: Table<PlayerId, Player>, ex: real, ey: real): (r: Option<PlayerId>)
    ensures r.Some? ==> r.value in ps.vals && Alive(ps.vals[r.value])
  {
    match ClosestFrom(ps, ps.keys, ex, ey, None)
    case None => None
    case Some((p, _)) => Some(p)
  }

  /**
   * `best` is what the scan of `seen` leaves: nobody when no player in `seen`
   * is alive, otherwise a living player of `seen` at the least distance, and
   * strictly closer than every living player met before it.
   */
  ghost predicate NearestOf(ps: Table<PlayerId, Player>, seen: seq<PlayerId>, ex: real, ey: real, best: Option<(PlayerId, real)>) {
    && (best.None? <==> forall i :: 0 <= i < |seen| ==> !(seen[i] in ps.vals && Alive(ps.vals[seen[i]])))
    && (best.Some? ==>
          exists j :: 0 <= j < |seen| && seen[j] == best.value.0 && IsNearestAt(ps, seen, ex, ey, j))
  }

  ghost predicate IsNearestAt(ps: Table<PlayerId, Player>, seen: seq<PlayerId>, ex: real, ey: real, j: nat)
    requires j < |seen|
  {
    && seen[j] in ps.vals && Alive(ps.vals[seen[j]])
    && (forall i :: 0 <= i < |seen| && seen[i] in ps.vals && Alive(ps.vals[seen[i]]) ==>
          Dist2(ex, ey, ps.vals[seen[j]].x, ps.vals[seen[j]].y) <= Dist2(ex, ey, ps.vals[seen[i]].x, ps.vals[seen[i]].y))
    && (forall i :: 0 <= i < j && seen[i] in ps.vals && Alive(ps.vals[seen[i]]) ==>
          Dist2(ex, ey, ps.vals[seen[j]].x, ps.vals[seen[j]].y) < Dist2(ex, ey, ps.vals[seen[i]].x, ps.vals[seen[i]].y))
  }

  lemma {:induction false} ClosestFromNearest(ps: Table<PlayerId, Player>, seen: seq<PlayerId>, ks: seq<PlayerId>, ex: real, ey: real, best: Option<(PlayerId, real)>)
    requires NearestOf(ps, seen, ex, ey, best)
    requires best.Some? ==> best.value.0 in ps.vals && best.value.1 == Dist2(ex, ey, ps.vals[best.value.0].x, ps.vals[best.value.0].y)
    ensures NearestOf(ps, seen + ks, ex, ey, ClosestFrom(ps, ks, ex, ey, best))
    decreases |ks|
  {
    if ks != [] {
      var k := ks[0];
      var seen' := seen + [k];
      var next :=
        if k in ps.vals && Alive(ps.vals[k]) then
          var d := Dist2(ex, ey, ps.vals[k].x, ps.vals[k].y);
          if best.None? || d < best.value.1 then Some((k, d)) else best
        else best;
      assert NearestOf(ps, seen', ex, ey, next) by {
        if next.Some? {
          if next != best {
            assert IsNearestAt(ps, seen', ex, ey, |seen|);
          } else {
            var j :| 0 <= j < |seen| && seen[j] == best.value.0 && IsNearestAt(ps, seen, ex, ey, j);
            assert IsNearestAt(ps, seen', ex, ey, j);
          }
        } else {
          assert forall i :: 0 <= i < |seen'| ==> !(seen'[i] in ps.vals && Alive(ps.vals[seen'[i]])) by {
            forall i | 0 <= i < |seen'| ensures !(seen'[i] in ps.vals && Alive(ps.vals[seen'[i]])) {
              if i < |seen| { assert seen'[i] == seen[i]; }
            }
          }
        }
      }
      ClosestFromNearest(ps, seen', ks[1..], ex, ey, next);
      assert seen' + ks[1..] == seen + ks;
    } else {
      assert seen + ks == seen;
    }
  }

  /** The squared distance from `(ex, ey)` to the player under `k`. */
  ghost function DistTo(ps: Table<PlayerId, Player>, k: PlayerId, ex: real, ey: real): real
    requires k in ps.vals
  {
    Dist2(ex, ey, ps.vals[k].x, ps.vals[k].y)
  }

  lemma ScanAll(ps: Table<PlayerId, Player>, ex: real, ey: real)
    ensures NearestOf(ps, ps.keys, ex, ey, ClosestFrom(ps, ps.keys, ex, ey, None))
  {
    ClosestFromNearest(ps, [], ps.keys, ex, ey, None);
    assert [] + ps.keys == ps.keys;
  }

  /** `findClosestPlayer` returns null exactly when no player is alive. */
  lemma ClosestPlayerNoneIffAllDead(ps: Table<PlayerId, Player>, ex: real, ey: real)
    requires ps.Valid()
    ensures ClosestPlayer(ps, ex, ey).None? <==> forall k :: k in ps.vals ==> !Alive(ps.vals[k])
  {
    ScanAll(ps, ex, ey);
    if ClosestPlayer(ps, ex, ey).None? {
      forall k | k in ps.vals ensures !Alive(ps.vals[k]) {
        var i :| 0 <= i < |ps.keys| && ps.keys[i] == k;
      }
    }
  }

  /** The player `findClosestPlayer` returns is no farther than any living player. */
  lemma ClosestPlayerIsNearest(ps: Table<PlayerId, Player>, ex: real, ey: real, q: PlayerId)
    requires ps.Valid() && ClosestPlayer(ps, ex, ey).Some?
    requires q in ps.vals && Alive(ps.vals[q])
    ensures DistTo(ps, ClosestPlayer(ps, ex, ey).value, ex, ey) <= DistTo(ps, q, ex, ey)
  {
    ScanAll(ps, ex, ey);
    var r := ClosestFrom(ps, ps.keys, ex, ey, None);
    var j :| 0 <= j < |ps.keys| && ps.keys[j] == r.value.0 && IsNearestAt(ps, ps.keys, ex, ey, j);
    var i :| 0 <= i < |ps.keys| && ps.keys[i] == q;
  }

  /**
   * Ties go to the first player in iteration order: every living player
   * before the returned one is strictly farther away.
   */
  lemma ClosestPlayerIsFirst(ps: Table<PlayerId, Player>, ex: real, ey: real, i: nat, j: nat)
    requires ps.Valid() && ClosestPlayer(ps, ex, ey).Some?
    requires i < j < |ps.keys| && ps.keys[j] == ClosestPlayer(ps, ex, ey).value && Alive(ps.vals[ps.keys[i]])
    ensures DistTo(ps, ps.keys[j], ex, ey) < DistTo(ps, ps.keys[i], ex, ey)
  {
    ScanAll(ps, ex, ey);
    var r := ClosestFrom(ps, ps.keys, ex, ey, None);
    var j' :| 0 <= j' < |ps.keys| && ps.keys[j'] == r.value.0 && IsNearestAt(ps, ps.keys, ex, ey, j');
    assert j' == j;
  }

  // ---------------------------------------------------------------------
  // One enemy's turn

  /** `getMeleeRange(enemy)`: `(enemy.size + PLAYER.SIZE) / 2 + 5`. */
  function MeleeRange(k: EnemyKind): (r: real)
    ensures r > 0.0
  {
    (Size(k) + PLAYER_SIZE) / 2.0 + 5.0
  }

  /**
   * The shooting test: `type === 'shooter'`, the target within `shootRange`
   * and more than `shootCooldown` since the last shot.
   */
  predicate Fires(e: Enemy, d2: real, now: int): (b: bool)
    ensures b <==> e.kind == Shooter && d2 < 300.0 * 300.0 && now - e.lastShot > 1500
  {
    && TypeName(e.kind) == "shooter"
    && (match ShootRange(e.kind) case Some(range) => d2 < range * range case None => false)
    && (match ShootCooldown(e.kind) case Some(cool) => now - e.lastShot > cool case None => false)
  }

  /** The bullet a shooter fires along the unit vector `(ux, uy)` towards its target. */
  function EnemyShot(id: EnemyId, e: Enemy, ux: real, uy: real): BulletSpec {
    BulletSpec(e.x, e.y, ux * ENEMY_BULLET_SPEED, uy * ENEMY_BULLET_SPEED, Damage(e.kind), Some(true), EnemyRef(id), None)
  }

  /** The flee test: `type === 'runner'` and the target closer than `fleeDistance`. */
  predicate Flees(e: Enemy, d2: real): (b: bool)
    ensures !b
  {
    && TypeName(e.kind) == "runner"
    && (match FleeDistance(e.kind) case Some(f) => d2 < f * f case None => false)
  }

  /**
   * The step and the clamp: when the target is not on top of the enemy, a
   * fleeing enemy steps away, an enemy farther than its melee range steps
   * towards the target, and one within melee range holds; then both
   * coordinates are clamped to `[50, WORLD_SIZE - 50]`.
   */
  function Moved(e: Enemy, d2: real, ux: real, uy: real): (m: Enemy)
    ensures EnemyInBounds(m)
    ensures m == e.(x := m.x, y := m.y)
    ensures EnemyInBounds(e) && d2 <= MeleeRange(e.kind) * MeleeRange(e.kind) ==> m == e
  {
    var reach := MeleeRange(e.kind);
    var step :=
      if d2 > 0.0 then
        if Flees(e, d2) then -Speed(e.kind)
        else if d2 <= reach * reach then 0.0
        else Speed(e.kind)
      else 0.0;
    var nx := if step != 0.0 then e.x + ux * step else e.x;
    var ny := if step != 0.0 then e.y + uy * step else e.y;
    e.(x := Clamp(50.0, WORLD_SIZE - 50.0, nx), y := Clamp(50.0, WORLD_SIZE - 50.0, ny))
  }

  /** The contact-damage test: within melee range and more than `ATTACK_COOLDOWN` since the last hit. */
  predicate Contacts(e: Enemy, d2: real, now: int): (b: bool)
    ensures b ==> d2 < 27.0 * 27.0 && now > e.lastHit + ENEMY_ATTACK_COOLDOWN
  {
    d2 < MeleeRange(e.kind) * MeleeRange(e.kind) && now - e.lastHit > ENEMY_ATTACK_COOLDOWN
  }

  /** The state one pass of `update` threads through its turns. */
  datatype EnemyPass = EnemyPass(
    enemies: Table<EnemyId, Enemy>,
    players: Table<PlayerId, Player>,
    shots: seq<BulletSpec>,
    drops: seq<DropRequest>)

  ghost predicate PassValid(st: EnemyPass) {
    st.enemies.Valid() && st.players.Valid()
  }

  /**
   * One iteration of the loop of `update` for the enemy under `id`, on its
   * own: the new tables, and the shots and drop requests of this turn alone.
   * `dir(dx, dy)` stands for the unit vector `(dx / dist, dy / dist)`.
   */
  function OwnTurn(enemies: Table<EnemyId, Enemy>, players: Table<PlayerId, Player>, id: EnemyId, now: int,
                   dir: (real, real) -> (real, real)): (r: (EnemyPass, Option<Kill>))
    requires enemies.Valid() && players.Valid() && id in enemies.vals
    ensures PassValid(r.0)
    ensures r.0.players.keys == players.keys
    ensures r.0.enemies.vals.Keys <= enemies.vals.Keys
    ensures forall k :: k in enemies.vals && k != id ==> k in r.0.enemies.vals && r.0.enemies.vals[k] == enemies.vals[k]
    ensures r.0.enemies.keys == if id in r.0.enemies.vals then enemies.keys else Without(enemies.keys, id)
    ensures |r.0.shots| <= 1 && |r.0.drops| <= 1
  {
    var e := enemies.vals[id];
    if e.hp <= 0 then
      (EnemyPass(enemies.Delete(id), players, [], [DropRequest(e.x, e.y, TypeName(e.kind))]), None)
    else
      var target := ClosestPlayer(players, e.x, e.y);
      if target.None? then (EnemyPass(enemies, players, [], []), None)
      else Engage(enemies, players, id, e, target.value, now, dir)
  }

  /**
   * The three ways a turn goes: a dead enemy is removed and asks for its
   * drop; a living one with no living target changes nothing; a living one
   * stays in the table, drops nothing, and a kill it reports is labelled
   * with its type and names a player left at 0 hp or below.
   */
  lemma OwnTurnCases(enemies: Table<EnemyId, Enemy>, players: Table<PlayerId, Player>, id: EnemyId, now: int,
                     dir: (real, real) -> (real, real))
    requires enemies.Valid() && players.Valid() && id in enemies.vals
    ensures var r := OwnTurn(enemies, players, id, now, dir); var e := enemies.vals[id];
      && (e.hp <= 0 ==> r == (EnemyPass(enemies.Delete(id), players, [], [DropRequest(e.x, e.y, TypeName(e.kind))]), None))
      && (e.hp > 0 ==> id in r.0.enemies.vals && r.0.drops == [])
      && (e.hp > 0 && ClosestPlayer(players, e.x, e.y).None? ==> r == (EnemyPass(enemies, players, [], []), None))
      && (r.1.Some? ==>
            && e.hp > 0 && r.1.value.killerName == TypeName(e.kind) + " enemy"
            && r.1.value.victim in r.0.players.vals && r.0.players.vals[r.1.value.victim].hp <= 0)
  {
    var e := enemies.vals[id];
    if e.hp > 0 {
      var target := ClosestPlayer(players, e.x, e.y);
      if target.Some? {
        EngageEffect(enemies, players, id, e, target.value, now, dir);
      }
    }
  }

  /**
   * The turn of the living enemy `e`, stored under `id`, whose closest living
   * player is `pid`: it fires when `Fires` holds, steps and is clamped, and
   * strikes when `Contacts` holds, reporting the kill when the hit takes the
   * target to 0 hp or below.
   */
  function Engage(enemies: Table<EnemyId, Enemy>, players: Table<PlayerId, Player>, id: EnemyId, e: Enemy, pid: PlayerId,
                  now: int, dir: (real, real) -> (real, real)): (r: (EnemyPass, Option<Kill>))
    requires pid in players.vals
    ensures r.0.drops == [] && |r.0.shots| <= 1
  {
    var p := players.vals[pid];
    var d2 := Dist2(e.x, e.y, p.x, p.y);
    var u := dir(p.x - e.x, p.y - e.y);
    var fires := Fires(e, d2, now);
    var shots := if fires then [EnemyShot(id, e, u.0, u.1)] else [];
    var moved := Moved(if fires then e.(lastShot := now) else e, d2, u.0, u.1);
    if Contacts(e, d2, now) then
      var hit := p.(hp := p.hp - Damage(e.kind));
      (EnemyPass(enemies.Put(id, moved.(lastHit := now)), players.Put(pid, hit), shots, []),
       if hit.hp <= 0 then Some(Kill(pid, TypeName(e.kind) + " enemy")) else None)
    else
      (EnemyPass(enemies.Put(id, moved), players, shots, []), None)
  }

  /**
   * What `Engage` does: one shot along `dir` exactly when `Fires`; the enemy
   * stays in bounds and changes only its position, `lastShot` (to `now` when
   * it fires) and `lastHit` (to `now` on contact); no other enemy changes;
   * on contact the target loses exactly the enemy's damage and otherwise no
   * player changes; and a kill is reported exactly when the hit leaves the
   * target at 0 hp or below.
   */
  lemma EngageEffect(enemies: Table<EnemyId, Enemy>, players: Table<PlayerId, Player>, id: EnemyId, e: Enemy, pid: PlayerId,
                     now: int, dir: (real, real) -> (real, real))
    requires pid in players.vals
    ensures var r := Engage(enemies, players, id, e, pid, now, dir);
      var p := players.vals[pid]; var d2 := Dist2(e.x, e.y, p.x, p.y);
      && r.0.drops == []
      && |r.0.shots| == (if Fires(e, d2, now) then 1 else 0)
      && (Fires(e, d2, now) ==> r.0.shots[0] == EnemyShot(id, e, dir(p.x - e.x, p.y - e.y).0, dir(p.x - e.x, p.y - e.y).1))
    ensures var r := Engage(enemies, players, id, e, pid, now, dir);
      var p := players.vals[pid]; var d2 := Dist2(e.x, e.y, p.x, p.y);
      && id in r.0.enemies.vals && r.0.enemies.vals == enemies.vals[id := r.0.enemies.vals[id]]
      && var m := r.0.enemies.vals[id];
         && EnemyInBounds(m)
         && m == e.(x := m.x, y := m.y,
                    lastShot := if Fires(e, d2, now) then now else e.lastShot,
                    lastHit := if Contacts(e, d2, now) then now else e.lastHit)
    ensures var r := Engage(enemies, players, id, e, pid, now, dir);
      var p := players.vals[pid]; var d2 := Dist2(e.x, e.y, p.x, p.y);
      r.0.players.vals == if Contacts(e, d2, now) then players.vals[pid := p.(hp := p.hp - Damage(e.kind))] else players.vals
    ensures var r := Engage(enemies, players, id, e, pid, now, dir);
      var p := players.vals[pid]; var d2 := Dist2(e.x, e.y, p.x, p.y);
      && (r.1.Some? <==> Contacts(e, d2, now) && p.hp - Damage(e.kind) <= 0)
      && (r.1.Some? ==> r.1.value == Kill(pid, TypeName(e.kind) + " enemy"))
  {
  }

  /**
   * After a contact hit the enemy waits out `ATTACK_COOLDOWN`: it cannot
   * strike again, whatever the distance, until more than 1000 ms have passed.
   */
  lemma ContactCooldown(enemies: Table<EnemyId, Enemy>, players: Table<PlayerId, Player>, id: EnemyId, e: Enemy, pid: PlayerId,
                        now: int, dir: (real, real) -> (real, real), d2: real, later: int)
    requires pid in players.vals
    requires Contacts(e, Dist2(e.x, e.y, players.vals[pid].x, players.vals[pid].y), now)
    ensures var m := Engage(enemies, players, id, e, pid, now, dir).0.enemies.vals[id];
      Contacts(m, d2, later) ==> later > now + ENEMY_ATTACK_COOLDOWN
  {
    EngageEffect(enemies, players, id, e, pid, now, dir);
  }

  /** The two outcomes of `Engage`, with and without a contact hit. A proof aid that unfolds `Engage`; its meaning is stated by `EngageEffect`. */
  lemma EngageCases(enemies: Table<EnemyId, Enemy>, players: Table<PlayerId, Player>, id: EnemyId, e: Enemy, pid: PlayerId,
                    now: int, dir: (real, real) -> (real, real))
    requires pid in players.vals
    ensures var r := Engage(enemies, players, id, e, pid, now, dir);
      var p := players.vals[pid];
      var d2 := Dist2(e.x, e.y, p.x, p.y);
      var u := dir(p.x - e.x, p.y - e.y);
      var moved := Moved(if Fires(e, d2, now) then e.(lastShot := now) else e, d2, u.0, u.1);
      && r.0.shots == (if Fires(e, d2, now) then [EnemyShot(id, e, u.0, u.1)] else []) && r.0.drops == []
      && (Contacts(e, d2, now) ==>
            && r.0.enemies == enemies.Put(id, moved.(lastHit := now))
            && r.0.players == players.Put(pid, p.(hp := p.hp - Damage(e.kind)))
            && r.1 == if p.hp - Damage(e.kind) <= 0 then Some(Kill(pid, TypeName(e.kind) + " enemy")) else None)
      && (!Contacts(e, d2, now) ==> r.0.enemies == enemies.Put(id, moved) && r.0.players == players && r.1.None?)
  {
  }

  /**
   * A turn within a pass: its own effects, with its shots and drop requests
   * appended to those of the turns before it.
   */
  function EnemyTurn(st: EnemyPass, id: EnemyId, now: int, dir: (real, real) -> (real, real)): (r: (EnemyPass, Option<Kill>))
    requires PassValid(st) && id in st.enemies.vals
    ensures PassValid(r.0)
    ensures r.0.players.keys == st.players.keys
    ensures r.0.enemies.vals.Keys <= st.enemies.vals.Keys
    ensures forall k :: k in st.enemies.vals && k != id ==> k in r.0.enemies.vals && r.0.enemies.vals[k] == st.enemies.vals[k]
    ensures r.0.enemies.keys == if id in r.0.enemies.vals then st.enemies.keys else Without(st.enemies.keys, id)
    ensures st.shots <= r.0.shots && |r.0.shots| <= |st.shots| + 1
    ensures st.drops <= r.0.drops && |r.0.drops| <= |st.drops| + 1
  {
    var own := OwnTurn(st.enemies, st.players, id, now, dir);
    (EnemyPass(own.0.enemies, own.0.players, st.shots + own.0.shots, st.drops + own.0.drops), own.1)
  }

  /**
   * The loop of `update` over `ks`: the turns in order, stopping at the first
   * turn whose contact hit kills its target.
   */
  function RunEnemies(st: EnemyPass, ks: seq<EnemyId>, now: int, dir: (real, real) -> (real, real)): (r: (EnemyPass, Option<Kill>))
    requires PassValid(st) && Distinct(ks) && forall k :: k in ks ==> k in st.enemies.vals
    ensures PassValid(r.0)
    ensures r.0.players.keys == st.players.keys
    decreases |ks|
  {
    if ks == [] then (st, None)
    else
      var (st1, kill) := EnemyTurn(st, ks[0], now, dir);
      if kill.Some? then (st1, kill)
      else
        DistinctTail(ks);
        RunEnemies(st1, ks[1..], now, dir)
  }

  /**
   * The position in `ks` of the turn whose contact hit kills, or `|ks|`
   * when no turn kills and the pass runs to the end.
   */
  ghost function StopAt(st: EnemyPass, ks: seq<EnemyId>, now: int, dir: (real, real) -> (real, real)): (i: nat)
    requires PassValid(st) && Distinct(ks) && forall k :: k in ks ==> k in st.enemies.vals
    ensures i <= |ks|
    decreases |ks|
  {
    if ks == [] then 0
    else
      var (st1, kill) := EnemyTurn(st, ks[0], now, dir);
      if kill.Some? then 0
      else
        DistinctTail(ks);
        1 + StopAt(st1, ks[1..], now, dir)
  }

  /** A kill reported by a turn is labelled with the type of the enemy whose turn it was. */
  lemma TurnKillLabel(st: EnemyPass, id: EnemyId, now: int, dir: (real, real) -> (real, real))
    requires PassValid(st) && id in st.enemies.vals
    ensures var r := EnemyTurn(st, id, now, dir);
      r.1.Some? ==> r.1.value.killerName == TypeName(st.enemies.vals[id].kind) + " enemy"
  {
    OwnTurnCases(st.enemies, st.players, id, now, dir);
  }

  /**
   * A pass stops at the first killing turn: it reports a kill exactly when
   * some turn killed, its result is that of the turns up to and including
   * the killing one, and the kill is credited to the type of the enemy
   * whose turn it was.
   */
  lemma RunStopsAtKill(st: EnemyPass, ks: seq<EnemyId>, now: int, dir: (real, real) -> (real, real))
    requires PassValid(st) && Distinct(ks) && forall k :: k in ks ==> k in st.enemies.vals
    ensures var r := RunEnemies(st, ks, now, dir); var i := StopAt(st, ks, now, dir);
      && (r.1.Some? <==> i < |ks|)
      && (i < |ks| ==>
            && Distinct(ks[..i + 1])
            && r == RunEnemies(st, ks[..i + 1], now, dir)
            && r.1.value.killerName == TypeName(st.enemies.vals[ks[i]].kind) + " enemy")
  {
    RunKillIff(st, ks, now, dir);
    if StopAt(st, ks, now, dir) < |ks| {
      RunKillPrefix(st, ks, StopAt(st, ks, now, dir) + 1, now, dir);
    }
    RunKillLabel(st, ks, now, dir);
  }

  /** A pass reports a kill exactly when it stopped before the end. */
  lemma {:induction false} RunKillIff(st: EnemyPass, ks: seq<EnemyId>, now: int, dir: (real, real) -> (real, real))
    requires PassValid(st) && Distinct(ks) && forall k :: k in ks ==> k in st.enemies.vals
    ensures RunEnemies(st, ks, now, dir).1.Some? <==> StopAt(st, ks, now, dir) < |ks|
    decreases |ks|
  {
    if ks != [] {
      var (st1, kill) := EnemyTurn(st, ks[0], now, dir);
      if kill.None? {
        DistinctTail(ks);
        RunKillIff(st1, ks[1..], now, dir);
      }
    }
  }

  /** A pass that stops before position `n` is the pass over `ks[..n]`. */
  lemma {:induction false} RunKillPrefix(st: EnemyPass, ks: seq<EnemyId>, n: nat, now: int, dir: (real, real) -> (real, real))
    requires PassValid(st) && Distinct(ks) && forall k :: k in ks ==> k in st.enemies.vals
    requires StopAt(st, ks, now, dir) < n <= |ks|
    ensures Distinct(ks[..n]) && RunEnemies(st, ks, now, dir) == RunEnemies(st, ks[..n], now, dir)
    decreases |ks|
  {
    var t := EnemyTurn(st, ks[0], now, dir);
    DistinctTail(ks);
    if t.1.Some? {
      FirstTurnKills(st, ks, n, now, dir);
    } else {
      assert StopAt(st, ks, now, dir) == 1 + StopAt(t.0, ks[1..], now, dir);
      RunKillPrefix(t.0, ks[1..], n - 1, now, dir);
      PrefixRun(st, ks, n - 1, now, dir);
      assert RunEnemies(st, ks, now, dir) == RunEnemies(t.0, ks[1..], now, dir);
    }
  }

  /** The kill of a pass that stopped at `i` is credited to the type of the `i`th enemy. */
  lemma {:induction false} RunKillLabel(st: EnemyPass, ks: seq<EnemyId>, now: int, dir: (real, real) -> (real, real))
    requires PassValid(st) && Distinct(ks) && forall k :: k in ks ==> k in st.enemies.vals
    ensures var r := RunEnemies(st, ks, now, dir); var i := StopAt(st, ks, now, dir);
      i < |ks| ==> r.1.Some? && r.1.value.killerName == TypeName(st.enemies.vals[ks[i]].kind) + " enemy"
    decreases |ks|
  {
    if ks != [] {
      var t := EnemyTurn(st, ks[0], now, dir);
      DistinctTail(ks);
      if t.1.Some? {
        TurnKillLabel(st, ks[0], now, dir);
      } else {
        var rest := ks[1..];
        var i := StopAt(st, ks, now, dir);
        var j := StopAt(t.0, rest, now, dir);
        assert i == 1 + j;
        assert RunEnemies(st, ks, now, dir) == RunEnemies(t.0, rest, now, dir);
        if i < |ks| {
          RunKillLabel(t.0, rest, now, dir);
          assert ks[i] == rest[j] && ks[i] != ks[0];
          assert st.enemies.vals[ks[i]] == t.0.enemies.vals[rest[j]];
        }
      }
    }
  }

  /** A pass whose first turn kills is that turn alone, over any non-empty prefix. */
  lemma FirstTurnKills(st: EnemyPass, ks: seq<EnemyId>, n: nat, now: int, dir: (real, real) -> (real, real))
    requires PassValid(st) && Distinct(ks) && forall k :: k in ks ==> k in st.enemies.vals
    requires 0 < n <= |ks| && EnemyTurn(st, ks[0], now, dir).1.Some?
    ensures Distinct(ks[..n])
    ensures RunEnemies(st, ks, now, dir) == RunEnemies(st, ks[..n], now, dir) == EnemyTurn(st, ks[0], now, dir)
  {
    var pre := ks[..n];
    assert forall a, b :: 0 <= a < b < |pre| ==> pre[a] == ks[a] && pre[b] == ks[b];
    assert pre[0] == ks[0];
  }

  /** A pass over a longer prefix whose first turn does not kill is that turn followed by the rest. */
  lemma PrefixRun(st: EnemyPass, ks: seq<EnemyId>, i: nat, now: int, dir: (real, real) -> (real, real))
    requires PassValid(st) && Distinct(ks) && forall k :: k in ks ==> k in st.enemies.vals
    requires 0 < i < |ks| && EnemyTurn(st, ks[0], now, dir).1.None?
    ensures Distinct(ks[..i + 1]) && Distinct(ks[1..][..i])
    ensures RunEnemies(st, ks[..i + 1], now, dir) == RunEnemies(EnemyTurn(st, ks[0], now, dir).0, ks[1..][..i], now, dir)
  {
    var pre := ks[..i + 1];
    assert forall a, b :: 0 <= a < b < |pre| ==> pre[a] == ks[a] && pre[b] == ks[b];
    assert pre[0] == ks[0];
    assert pre[1..] == ks[1..][..i];
    DistinctTail(pre);
  }

  /** The enemies after the killing turn keep their records. */
  lemma {:induction false} RunLeavesRest(st: EnemyPass, ks: seq<EnemyId>, now: int, dir: (real, real) -> (real, real))
    requires PassValid(st) && Distinct(ks) && forall k :: k in ks ==> k in st.enemies.vals
    ensures var r := RunEnemies(st, ks, now, dir); var i := StopAt(st, ks, now, dir);
      forall j :: i < j < |ks| ==> ks[j] in r.0.enemies.vals && r.0.enemies.vals[ks[j]] == st.enemies.vals[ks[j]]
    decreases |ks|
  {
    if ks != [] {
      var (st1, kill) := EnemyTurn(st, ks[0], now, dir);
      var r := RunEnemies(st, ks, now, dir);
      var i := StopAt(st, ks, now, dir);
      DistinctTail(ks);
      if kill.Some? {
        assert r == (st1, kill);
        forall j | 0 < j < |ks| ensures ks[j] in r.0.enemies.vals && r.0.enemies.vals[ks[j]] == st.enemies.vals[ks[j]] {
          assert ks[j] in ks[1..];
        }
      } else {
        RunLeavesRest(st1, ks[1..], now, dir);
        assert r == RunEnemies(st1, ks[1..], now, dir);
        forall j | i < j < |ks|
          ensures ks[j] in r.0.enemies.vals && r.0.enemies.vals[ks[j]] == st.enemies.vals[ks[j]]
        {
          assert ks[j] == ks[1..][j - 1] && ks[j] in ks[1..];
        }
      }
    }
  }

  /** Every enemy `update` moves ends inside `[50, WORLD_SIZE - 50]`, so the bound is kept. */
  lemma {:induction false} RunKeepsBounds(st: EnemyPass, ks: seq<EnemyId>, now: int, dir: (real, real) -> (real, real))
    requires PassValid(st) && Distinct(ks) && forall k :: k in ks ==> k in st.enemies.vals
    requires AllInBounds(st.enemies)
    ensures AllInBounds(RunEnemies(st, ks, now, dir).0.enemies)
    decreases |ks|
  {
    if ks != [] {
      var (st1, kill) := EnemyTurn(st, ks[0], now, dir);
      assert AllInBounds(st1.enemies);
      if kill.None? {
        DistinctTail(ks);
        RunKeepsBounds(st1, ks[1..], now, dir);
      }
    }
  }

  /** `p` is `q` with some hp lost and nothing else changed. */
  predicate OnlyLostHp(q: Player, p: Player) {
    p == q.(hp := p.hp) && p.hp <= q.hp
  }

  /**
   * A turn changes players only by contact damage to the enemy's target: the
   * target is the nearest living player, it loses exactly the enemy's damage,
   * and every other player is untouched.
   */
  lemma TurnDamagesOnlyTarget(st: EnemyPass, id: EnemyId, now: int, dir: (real, real) -> (real, real), k: PlayerId)
    requires PassValid(st) && id in st.enemies.vals && k in st.players.vals
    ensures var r := EnemyTurn(st, id, now, dir).0; var e := st.enemies.vals[id];
      && k in r.players.vals
      && (r.players.vals[k] == st.players.vals[k]
          || (e.hp > 0 && ClosestPlayer(st.players, e.x, e.y) == Some(k)
              && Contacts(e, DistTo(st.players, k, e.x, e.y), now)
              && r.players.vals[k] == st.players.vals[k].(hp := st.players.vals[k].hp - Damage(e.kind))))
  {
  }

  /** Over a whole pass, players only lose hp; ids, names, positions and coins stay. */
  lemma {:induction false} RunOnlyDamagesPlayers(st: EnemyPass, ks: seq<EnemyId>, now: int, dir: (real, real) -> (real, real))
    requires PassValid(st) && Distinct(ks) && forall k :: k in ks ==> k in st.enemies.vals
    ensures var r := RunEnemies(st, ks, now, dir).0;
      forall k :: k in st.players.vals ==> k in r.players.vals && OnlyLostHp(st.players.vals[k], r.players.vals[k])
    decreases |ks|
  {
    if ks != [] {
      var (st1, kill) := EnemyTurn(st, ks[0], now, dir);
      forall k | k in st.players.vals ensures k in st1.players.vals && OnlyLostHp(st.players.vals[k], st1.players.vals[k]) {
        TurnDamagesOnlyTarget(st, ks[0], now, dir, k);
      }
      if kill.None? {
        DistinctTail(ks);
        RunOnlyDamagesPlayers(st1, ks[1..], now, dir);
      }
    }
  }

  /**
   * A pass reports a kill only for a player whose hp it brought to 0 or
   * below, named after the killing enemy's type with the suffix " enemy".
   */
  lemma {:induction false} RunKillIsDead(st: EnemyPass, ks: seq<EnemyId>, now: int, dir: (real, real) -> (real, real))
    requires PassValid(st) && Distinct(ks) && forall k :: k in ks ==> k in st.enemies.vals
    ensures var r := RunEnemies(st, ks, now, dir);
      r.1.Some? ==>
        && r.1.value.victim in r.0.players.vals && r.0.players.vals[r.1.value.victim].hp <= 0
        && exists k :: k in CATALOG && r.1.value.killerName == TypeName(k) + " enemy"
    decreases |ks|
  {
    if ks != [] {
      var (st1, kill) := EnemyTurn(st, ks[0], now, dir);
      if kill.Some? {
        var e := st.enemies.vals[ks[0]];
        assert e.kind in CATALOG;
      } else {
        DistinctTail(ks);
        RunKillIsDead(st1, ks[1..], now, dir);
      }
    }
  }

  /** Every bullet an enemy pass asks for does non-negative damage. */
  ghost predicate ShotsHarmless(shots: seq<BulletSpec>) {
    forall j :: 0 <= j < |shots| ==> shots[j].damage >= 0
  }

  /** A turn only removes enemies, and any shot it adds does the shooter's non-negative damage. */
  lemma TurnShrinksAndShootsHarmlessly(st: EnemyPass, id: EnemyId, now: int, dir: (real, real) -> (real, real))
    requires PassValid(st) && id in st.enemies.vals && ShotsHarmless(st.shots)
    ensures var r := EnemyTurn(st, id, now, dir).0;
      r.enemies.vals.Keys <= st.enemies.vals.Keys && ShotsHarmless(r.shots)
  {
    var r := EnemyTurn(st, id, now, dir).0;
    if |r.shots| > |st.shots| {
      assert r.shots[|st.shots|].damage == Damage(st.enemies.vals[id].kind);
    }
  }

  /** A pass only removes enemies, and every bullet it asks for does non-negative damage. */
  lemma {:induction false} RunShrinksAndShootsHarmlessly(st: EnemyPass, ks: seq<EnemyId>, now: int, dir: (real, real) -> (real, real))
    requires PassValid(st) && Distinct(ks) && forall k :: k in ks ==> k in st.enemies.vals
    requires ShotsHarmless(st.shots)
    ensures var r := RunEnemies(st, ks, now, dir).0;
      r.enemies.vals.Keys <= st.enemies.vals.Keys && ShotsHarmless(r.shots)
    decreases |ks|
  {
    if ks != [] {
      var (st1, kill) := EnemyTurn(st, ks[0], now, dir);
      TurnShrinksAndShootsHarmlessly(st, ks[0], now, dir);
      if kill.None? {
        DistinctTail(ks);
        RunShrinksAndShootsHarmlessly(st1, ks[1..], now, dir);
      }
    }
  }

  /** A `shooter_runner` matches neither the `'shooter'` nor the `'runner'` test: it never fires and never flees. */
  lemma ShooterRunnerNeitherShootsNorFlees(e: Enemy, d2: real, now: int)
    requires e.kind == ShooterRunner
    ensures !Fires(e, d2, now) && !Flees(e, d2)
  {
  }

}
