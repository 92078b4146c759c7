/**
 * The rules of the coin manager as functions on values: the ambient coins
 * that appear over time, the coins dropped by dying enemies and players, and
 * pickup. The manager class in module Server runs them in place and is
 * proved equal to them.
 */
module CoinRules {
  import opened Wrappers
  import opened Config
  import opened Geometry
  import opened Random
  import opened Tables
  import opened Entities
  import EnemyRules
  import PlayerRules

  /** `update` spawns an ambient coin only after more than this many milliseconds. */
  const COIN_SPAWN_INTERVAL: int := 6000
  /** `update` spawns an ambient coin only while fewer than this many are lying about. */
  const COIN_MAX_AMBIENT: nat := 10
  /** Spread of the random offset of a coin dropped by an enemy. */
  const ENEMY_DROP_SPREAD: real := 60.0
  /** Spread of the random offset of a coin dropped by a player. */
  const PLAYER_DROP_SPREAD: real := 100.0

  // ---------------------------------------------------------------------
  // Ambient coins

  /** The coin `spawnCoin` stores under `id`: value 1 at a position drawn in `[100, WORLD_SIZE - 100)`. */
  function SpawnedCoin(id: CoinId, rx: Roll, ry: Roll): (c: Coin)
    ensures c.id == id && c.value == 1
    ensures 100.0 <= c.x < WORLD_SIZE - 100.0 && 100.0 <= c.y < WORLD_SIZE - 100.0
  {
    Coin(id, SpawnCoord(rx, WORLD_SIZE - 200.0, 100.0), SpawnCoord(ry, WORLD_SIZE - 200.0, 100.0), 1)
  }

  /** `spawnCoin()`: two draws, id `nextId`, then the counter moves on. */
  function SpawnCoin(t: Table<CoinId, Coin>, nextId: nat, draw: nat -> Roll, pos: nat): (r: (Table<CoinId, Coin>, nat, nat))
    requires t.Valid() && EnemyRules.IdsBelow(t, nextId)
    ensures r.0.Valid() && EnemyRules.IdsBelow(r.0, r.1) && r.1 == nextId + 1 && r.2 == pos + 2
    ensures r.0.keys == t.keys + [nextId]
    ensures r.0.vals == t.vals[nextId := SpawnedCoin(nextId, draw(pos), draw(pos + 1))]
  {
    (t.Put(nextId, SpawnedCoin(nextId, draw(pos), draw(pos + 1))), nextId + 1, pos + 2)
  }

  /** The spawn condition of `update`. */
  predicate SpawnDue(t: Table<CoinId, Coin>, last: int, now: int) {
    now - last > COIN_SPAWN_INTERVAL && t.Size() < COIN_MAX_AMBIENT
  }

  /** The state `update` changes: the coins, their id counter and the time of the last spawn. */
  datatype CoinTick = CoinTick(coins: Table<CoinId, Coin>, nextId: nat, lastSpawn: int, pos: nat)

  /**
   * `update()`: when more than `COIN_SPAWN_INTERVAL` has passed since the
   * last spawn and fewer than `COIN_MAX_AMBIENT` coins lie about, one coin is
   * spawned and the spawn time becomes `now`; otherwise nothing changes.
   */
  function Tick(s: CoinTick, now: int, draw: nat -> Roll): (r: CoinTick)
    requires s.coins.Valid() && EnemyRules.IdsBelow(s.coins, s.nextId)
    ensures r.coins.Valid() && EnemyRules.IdsBelow(r.coins, r.nextId)
    ensures SpawnDue(s.coins, s.lastSpawn, now) ==> r.lastSpawn == now && r.coins.Size() == s.coins.Size() + 1
    ensures !SpawnDue(s.coins, s.lastSpawn, now) ==> r == s
  {
    if SpawnDue(s.coins, s.lastSpawn, now) then
      var (t, n, p) := SpawnCoin(s.coins, s.nextId, draw, s.pos);
      CoinTick(t, n, now, p)
    else s
  }

  /** Spawning alone never brings more than `COIN_MAX_AMBIENT` coins into the world. */
  lemma TickKeepsAmbientBound(s: CoinTick, now: int, draw: nat -> Roll)
    requires s.coins.Valid() && EnemyRules.IdsBelow(s.coins, s.nextId)
    requires s.coins.Size() <= COIN_MAX_AMBIENT
    ensures Tick(s, now, draw).coins.Size() <= COIN_MAX_AMBIENT
  {
  }

  // ---------------------------------------------------------------------
  // Dropped coins

  /** `(Math.random() - 0.5) * spread`: an offset in `[-spread / 2, spread / 2)`. */
  function Jitter(r: Roll, spread: real): (d: real)
    requires spread > 0.0
    ensures -spread / 2.0 <= d < spread / 2.0
  {
    ScaledBelow(r, spread);
    r * spread - spread / 2.0
  }

  /** The offset is the source's `(Math.random() - 0.5) * spread`. */
  lemma JitterOffset(r: Roll, spread: real)
    requires spread > 0.0
    ensures Jitter(r, spread) == (r - 0.5) * spread
  {
  }

  /**
   * `TYPES.find(t => t.type === enemyType)?.dropChance || 0`: the chance of the
   * catalog entry with that type name, and 0 for a name not in the catalog.
   */
  function DropChanceOf(name: string): (p: real)
    ensures FindTemplate(name).Some? ==> p == DropChance(FindTemplate(name).value)
    ensures FindTemplate(name).None? ==> p == 0.0
    ensures 0.0 <= p < 1.0
  {
    match FindTemplate(name)
    case Some(k) => DropChance(k)
    case None => 0.0
  }

  /** A dropped coin of value 1 at `(x, y)` offset by two draws, disappearing `DROP_TIMEOUT` after `now`. */
  function DroppedNear(id: CoinId, x: real, y: real, rx: Roll, ry: Roll, spread: real, now: int): (c: DroppedCoin)
    requires spread > 0.0
    ensures c.id == id && c.value == 1 && c.timeout == now + COIN_DROP_TIMEOUT
    ensures x - spread / 2.0 <= c.x < x + spread / 2.0 && y - spread / 2.0 <= c.y < y + spread / 2.0
  {
    DroppedCoin(id, x + Jitter(rx, spread), y + Jitter(ry, spread), 1, now + COIN_DROP_TIMEOUT)
  }

  /** The drop state: the dropped coins, their id counter and the position in the random stream. */
  datatype Drops = Drops(coins: Table<CoinId, DroppedCoin>, nextId: nat, pos: nat)

  ghost predicate DropsValid(d: Drops) {
    d.coins.Valid() && EnemyRules.IdsBelow(d.coins, d.nextId)
  }

  /**
   * `dropCoinFromEnemy(x, y, type)`: one draw decides; when it is below the
   * type's drop chance a coin is dropped within 30 of `(x, y)`, using two more draws.
   */
  function EnemyDrop(d: Drops, req: DropRequest, now: int, draw: nat -> Roll): (r: Drops)
    requires DropsValid(d)
    ensures DropsValid(r)
    ensures draw(d.pos) < DropChanceOf(req.enemyType) ==>
      && r.coins.keys == d.coins.keys + [d.nextId] && r.nextId == d.nextId + 1 && r.pos == d.pos + 3
      && r.coins.vals == d.coins.vals[d.nextId := DroppedNear(d.nextId, req.x, req.y, draw(d.pos + 1), draw(d.pos + 2), ENEMY_DROP_SPREAD, now)]
    ensures draw(d.pos) >= DropChanceOf(req.enemyType) ==> r == d.(pos := d.pos + 1)
  {
    if draw(d.pos) < DropChanceOf(req.enemyType) then
      var c := DroppedNear(d.nextId, req.x, req.y, draw(d.pos + 1), draw(d.pos + 2), ENEMY_DROP_SPREAD, now);
      Drops(d.coins.Put(d.nextId, c), d.nextId + 1, d.pos + 3)
    else d.(pos := d.pos + 1)
  }

  /** An enemy type missing from the catalog never drops a coin. */
  lemma UnknownTypeNeverDrops(d: Drops, req: DropRequest, now: int, draw: nat -> Roll)
    requires DropsValid(d) && forall k :: k in CATALOG ==> TypeName(k) != req.enemyType
    ensures EnemyDrop(d, req, now, draw).coins == d.coins
  {
  }

  /** The `dropCoinFromEnemy` calls of one enemy pass, in order. */
  function EnemyDrops(d: Drops, reqs: seq<DropRequest>, now: int, draw: nat -> Roll): (r: Drops)
    requires DropsValid(d)
    ensures DropsValid(r) && d.coins.keys <= r.coins.keys
    ensures forall k :: k in d.coins.vals ==> k in r.coins.vals && r.coins.vals[k] == d.coins.vals[k]
    decreases |reqs|
  {
    if reqs == [] then d else EnemyDrops(EnemyDrop(d, reqs[0], now, draw), reqs[1..], now, draw)
  }

  /**
   * The coins of `n` iterations of the loop of `dropCoinsFromPlayer`, in
   * order, from id `id` and stream position `pos`: the i-th takes id `id + i`
   * and the two draws at `pos + 2i`, and lies within 50 of `(x, y)`.
   */
  function PlayerCoins(id: CoinId, x: real, y: real, pos: nat, n: nat, now: int, draw: nat -> Roll): seq<DroppedCoin> {
    seq(n, i requires 0 <= i < n => DroppedNear(id + i, x, y, draw(pos + i + i), draw(pos + i + i + 1), PLAYER_DROP_SPREAD, now))
  }

  /**
   * The first iteration written out: with `rx` and `ry` the next two draws it
   * stores the coin they place under `id`, and the remaining `n - 1`
   * iterations start from the next id and two draws further on.
   */
  lemma PlayerCoinsStep(id: CoinId, x: real, y: real, pos: nat, n: nat, now: int, draw: nat -> Roll, rx: Roll, ry: Roll)
    requires n > 0 && rx == draw(pos) && ry == draw(pos + 1)
    ensures PlayerCoins(id, x, y, pos, n, now, draw)[0] == DroppedNear(id, x, y, rx, ry, PLAYER_DROP_SPREAD, now)
    ensures PlayerCoins(id, x, y, pos, n, now, draw)[1..] == PlayerCoins(id + 1, x, y, pos + 2, n - 1, now, draw)
  {
    var cs, rest := PlayerCoins(id, x, y, pos, n, now, draw), PlayerCoins(id + 1, x, y, pos + 2, n - 1, now, draw);
    forall i | 0 <= i < n - 1 ensures cs[1..][i] == rest[i] {
      assert pos + (i + 1) + (i + 1) == (pos + 2) + i + i;
    }
  }

  /**
   * The same step on the table, with `t1`, `id1`, `pos1` and `m` the state
   * after it.
   */
  lemma PlayerDropStep(t: Table<CoinId, DroppedCoin>, id: CoinId, pos: nat, n: nat, t1: Table<CoinId, DroppedCoin>, id1: CoinId, pos1: nat, m: nat,
                       x: real, y: real, now: int, draw: nat -> Roll, rx: Roll, ry: Roll)
    requires rx == draw(pos) && ry == draw(pos + 1)
    requires t1 == t.Put(id, DroppedNear(id, x, y, rx, ry, PLAYER_DROP_SPREAD, now))
    requires id1 == id + 1 && pos1 == pos + 2 && n == m + 1
    ensures DropsAround(t, id, pos, n, x, y, now, draw) == DropsAround(t1, id1, pos1, m, x, y, now, draw)
  {
    var cs := PlayerCoins(id, x, y, pos, n, now, draw);
    PlayerCoinsStep(id, x, y, pos, n, now, draw, rx, ry);
    assert PutFrom(t, id, cs) == PutFrom(t.Put(id, cs[0]), id + 1, cs[1..]);
  }

  /** The table `t` with `n` coins dropped around `(x, y)` from ids `id` and stream position `pos` on. */
  function DropsAround(t: Table<CoinId, DroppedCoin>, id: CoinId, pos: nat, n: nat, x: real, y: real, now: int, draw: nat -> Roll): Table<CoinId, DroppedCoin>
  {
    PutFrom(t, id, PlayerCoins(id, x, y, pos, n, now, draw))
  }

  lemma DropsAroundNone(t: Table<CoinId, DroppedCoin>, id: CoinId, pos: nat, n: nat, x: real, y: real, now: int, draw: nat -> Roll)
    requires n == 0
    ensures DropsAround(t, id, pos, n, x, y, now, draw) == t
  {
    PutFromNothing(t, id, PlayerCoins(id, x, y, pos, n, now, draw));
  }

  /** `Math.floor(player.coins * RESPAWN_COINS_DROP)`: half the coins, rounded down. */
  function DropCount(coins: nat): (n: nat)
    ensures n == coins / 2
  {
    PlayerRules.HalfFloor(coins);
    (coins as real * RESPAWN_COINS_DROP).Floor
  }

  /**
   * `dropCoinsFromPlayer(player)`: half the player's coins, rounded down, are
   * dropped around it under fresh ids, two draws each; the player's own coin
   * count is not touched.
   */
  function PlayerDrops(d: Drops, p: Player, now: int, draw: nat -> Roll): (r: Drops)
    requires DropsValid(d)
    ensures DropsValid(r) && r.coins.Size() == d.coins.Size() + p.coins / 2
    ensures r.nextId == d.nextId + p.coins / 2 && r.pos == d.pos + p.coins / 2 + p.coins / 2
  {
    var n := DropCount(p.coins);
    var cs := PlayerCoins(d.nextId, p.x, p.y, d.pos, n, now, draw);
    PutFromValid(d.coins, d.nextId, cs);
    PutFromKeys(d.coins, d.nextId, cs);
    Drops(PutFrom(d.coins, d.nextId, cs), d.nextId + n, d.pos + n + n)
  }

  /** Every coin already dropped stays, unchanged and in its place in the order. */
  lemma PlayerDropsKeeps(d: Drops, p: Player, now: int, draw: nat -> Roll)
    requires DropsValid(d)
    ensures d.coins.keys <= PlayerDrops(d, p, now, draw).coins.keys
    ensures forall k :: k in d.coins.vals ==>
      k in PlayerDrops(d, p, now, draw).coins.vals && PlayerDrops(d, p, now, draw).coins.vals[k] == d.coins.vals[k]
  {
    var cs := PlayerCoins(d.nextId, p.x, p.y, d.pos, DropCount(p.coins), now, draw);
    PutFromOrder(d.coins, d.nextId, cs);
    PutFromKeeps(d.coins, d.nextId, cs);
  }

  /** A dropped coin worth 1, timing out `DROP_TIMEOUT` after `now`, less than 50 from `(x, y)` on each axis. */
  ghost predicate DroppedByPlayer(c: DroppedCoin, x: real, y: real, now: int) {
    && c.value == 1 && c.timeout == now + COIN_DROP_TIMEOUT
    && x - 50.0 <= c.x < x + 50.0 && y - 50.0 <= c.y < y + 50.0
  }

  /** Each coin added takes one of the fresh ids and is one such coin around the player. */
  lemma PlayerDropsNear(d: Drops, p: Player, now: int, draw: nat -> Roll)
    requires DropsValid(d)
    ensures forall k :: k in PlayerDrops(d, p, now, draw).coins.vals && k !in d.coins.vals ==>
      && d.nextId <= k < PlayerDrops(d, p, now, draw).nextId
      && PlayerDrops(d, p, now, draw).coins.vals[k].id == k
      && DroppedByPlayer(PlayerDrops(d, p, now, draw).coins.vals[k], p.x, p.y, now)
  {
    var n := DropCount(p.coins);
    var cs := PlayerCoins(d.nextId, p.x, p.y, d.pos, n, now, draw);
    var t := PutFrom(d.coins, d.nextId, cs);
    assert PlayerDrops(d, p, now, draw) == Drops(t, d.nextId + n, d.pos + n + n);
    assert |cs| == n;
    PutFromKeys(d.coins, d.nextId, cs);
    PutFromStores(d.coins, d.nextId, cs);
    PlayerCoinsNear(d.nextId, p.x, p.y, d.pos, n, now, draw);
    forall k | k in t.vals && k !in d.coins.vals
      ensures d.nextId <= k < d.nextId + n && t.vals[k].id == k && DroppedByPlayer(t.vals[k], p.x, p.y, now)
    {
      var i := k - d.nextId;
      assert 0 <= i < n && t.vals[k] == cs[i];
    }
  }

  /** The i-th coin of the loop takes id `id + i` and lies around `(x, y)`. */
  lemma PlayerCoinsNear(id: CoinId, x: real, y: real, pos: nat, n: nat, now: int, draw: nat -> Roll)
    ensures forall i :: 0 <= i < n ==> PlayerCoins(id, x, y, pos, n, now, draw)[i].id == id + i
    ensures forall i :: 0 <= i < n ==> DroppedByPlayer(PlayerCoins(id, x, y, pos, n, now, draw)[i], x, y, now)
  {
    var cs := PlayerCoins(id, x, y, pos, n, now, draw);
    forall i | 0 <= i < n
      ensures cs[i].id == id + i && DroppedByPlayer(cs[i], x, y, now)
    {
      var c := DroppedNear(id + i, x, y, draw(pos + i + i), draw(pos + i + i + 1), PLAYER_DROP_SPREAD, now);
      assert cs[i] == c;
    }
  }

  // ---------------------------------------------------------------------
  // Pickup

  /** An item at `(x, y)` is within pickup range of the player at `(px, py)`. */
  predicate InPickup(px: real, py: real, x: real, y: real) {
    Within(px, py, x, y, COIN_PICKUP_RANGE)
  }

  /** The first loop of `checkPickup`: every ambient coin of `ks` in range is removed and counted. */
  function PickAmbient(t: Table<CoinId, Coin>, ks: seq<CoinId>, px: real, py: real, n: nat): (r: (Table<CoinId, Coin>, nat))
    requires t.Valid()
    ensures r.0.Valid() && r.1 >= n
    decreases |ks|
  {
    if ks == [] then (t, n)
    else if ks[0] in t.vals && InPickup(px, py, t.vals[ks[0]].x, t.vals[ks[0]].y) then
      PickAmbient(t.Delete(ks[0]), ks[1..], px, py, n + 1)
    else PickAmbient(t, ks[1..], px, py, n)
  }

  /**
   * The ambient loop removes exactly the coins of `ks` within range, keeps the
   * rest as they were, and counts every removed coin once.
   */
  lemma {:induction false} PickAmbientEffect(t: Table<CoinId, Coin>, ks: seq<CoinId>, px: real, py: real, n: nat)
    requires t.Valid() && Distinct(ks)
    ensures var r := PickAmbient(t, ks, px, py, n);
      && (forall k :: k in r.0.vals <==> k in t.vals && !(k in ks && InPickup(px, py, t.vals[k].x, t.vals[k].y)))
      && (forall k :: k in r.0.vals ==> r.0.vals[k] == t.vals[k])
      && r.1 - n == t.Size() - r.0.Size()
    decreases |ks|
  {
    if ks != [] {
      DistinctTail(ks);
      var k := ks[0];
      if k in t.vals && InPickup(px, py, t.vals[k].x, t.vals[k].y) {
        PickAmbientEffect(t.Delete(k), ks[1..], px, py, n + 1);
      } else {
        PickAmbientEffect(t, ks[1..], px, py, n);
      }
    }
  }

  /** The coins of `ks` still in `t` within range of `(px, py)`: the ones the ambient loop collects. */
  ghost function AmbientInReach(t: Table<CoinId, Coin>, ks: seq<CoinId>, px: real, py: real): set<CoinId> {
    set k | k in ks && k in t.vals && InPickup(px, py, t.vals[k].x, t.vals[k].y)
  }

  /** The ambient loop adds exactly one to the count per coin of `ks` within range. */
  lemma {:induction false} PickAmbientCount(t: Table<CoinId, Coin>, ks: seq<CoinId>, px: real, py: real, n: nat)
    requires t.Valid() && Distinct(ks)
    ensures PickAmbient(t, ks, px, py, n).1 == n + |AmbientInReach(t, ks, px, py)|
    decreases |ks|
  {
    if ks != [] {
      DistinctTail(ks);
      var k := ks[0];
      AmbientHead(t, ks, px, py);
      if k in t.vals && InPickup(px, py, t.vals[k].x, t.vals[k].y) {
        PickAmbientCount(t.Delete(k), ks[1..], px, py, n + 1);
        AmbientWithout(t, ks[1..], k, px, py);
      } else {
        PickAmbientCount(t, ks[1..], px, py, n);
      }
    }
  }

  /** The head of `ks` adds itself to the in-range set of the tail exactly when it is in range. */
  lemma AmbientHead(t: Table<CoinId, Coin>, ks: seq<CoinId>, px: real, py: real)
    requires ks != [] && ks[0] !in ks[1..]
    ensures var k := ks[0]; var rest := AmbientInReach(t, ks[1..], px, py);
      && k !in rest
      && AmbientInReach(t, ks, px, py) == rest + if k in t.vals && InPickup(px, py, t.vals[k].x, t.vals[k].y) then {k} else {}
  {
    assert forall j :: j in ks <==> j == ks[0] || j in ks[1..];
  }

  /** Deleting a coin outside `ks` leaves the in-range set of `ks` as it was. */
  lemma AmbientWithout(t: Table<CoinId, Coin>, ks: seq<CoinId>, k: CoinId, px: real, py: real)
    requires k !in ks
    ensures AmbientInReach(t.Delete(k), ks, px, py) == AmbientInReach(t, ks, px, py)
  {
    forall j | j in ks ensures j in t.Delete(k).vals <==> j in t.vals {
    }
  }

  /** A dropped coin has timed out. */
  predicate TimedOut(c: DroppedCoin, now: int) {
    now > c.timeout
  }

  /**
   * The second loop of `checkPickup`: a timed-out coin of `ks` is removed
   * without reward; otherwise one in range is removed and counted.
   */
  function PickDropped(t: Table<CoinId, DroppedCoin>, ks: seq<CoinId>, px: real, py: real, now: int, n: nat): (r: (Table<CoinId, DroppedCoin>, nat))
    requires t.Valid()
    ensures r.0.Valid() && r.1 >= n
    decreases |ks|
  {
    if ks == [] then (t, n)
    else if ks[0] in t.vals && TimedOut(t.vals[ks[0]], now) then
      PickDropped(t.Delete(ks[0]), ks[1..], px, py, now, n)
    else if ks[0] in t.vals && InPickup(px, py, t.vals[ks[0]].x, t.vals[ks[0]].y) then
      PickDropped(t.Delete(ks[0]), ks[1..], px, py, now, n + 1)
    else PickDropped(t, ks[1..], px, py, now, n)
  }

  /** A dropped coin of `ks` is removed when it timed out or is within range. */
  predicate Collects(t: Table<CoinId, DroppedCoin>, ks: seq<CoinId>, k: CoinId, px: real, py: real, now: int)
    requires k in t.vals
  {
    k in ks && (TimedOut(t.vals[k], now) || InPickup(px, py, t.vals[k].x, t.vals[k].y))
  }

  /**
   * The dropped-coin loop removes exactly the coins of `ks` that timed out or
   * are within range and keeps the rest as they were.
   */
  lemma {:induction false} PickDroppedKeeps(t: Table<CoinId, DroppedCoin>, ks: seq<CoinId>, px: real, py: real, now: int, n: nat)
    requires t.Valid() && Distinct(ks)
    ensures var r := PickDropped(t, ks, px, py, now, n);
      && (forall k :: k in r.0.vals <==> k in t.vals && !Collects(t, ks, k, px, py, now))
      && (forall k :: k in r.0.vals ==> r.0.vals[k] == t.vals[k])
    decreases |ks|
  {
    if ks != [] {
      DistinctTail(ks);
      var k := ks[0];
      if k in t.vals && (TimedOut(t.vals[k], now) || InPickup(px, py, t.vals[k].x, t.vals[k].y)) {
        var u := t.Delete(k);
        var m := if TimedOut(t.vals[k], now) then n else n + 1;
        assert PickDropped(t, ks, px, py, now, n) == PickDropped(u, ks[1..], px, py, now, m);
        PickDroppedKeeps(u, ks[1..], px, py, now, m);
        assert forall j :: j in u.vals ==> (Collects(u, ks[1..], j, px, py, now) <==> Collects(t, ks, j, px, py, now));
      } else {
        PickDroppedKeeps(t, ks[1..], px, py, now, n);
        assert forall j :: j in t.vals ==> (Collects(t, ks[1..], j, px, py, now) <==> Collects(t, ks, j, px, py, now));
      }
    }
  }

  /** The dropped coins of `ks` still in `t`, not timed out and within range: the ones the second loop pays for. */
  ghost function DroppedInReach(t: Table<CoinId, DroppedCoin>, ks: seq<CoinId>, px: real, py: real, now: int): set<CoinId> {
    set k | k in ks && k in t.vals && !TimedOut(t.vals[k], now) && InPickup(px, py, t.vals[k].x, t.vals[k].y)
  }

  /**
   * The dropped-coin loop adds exactly one to the count per coin of `ks`
   * within range that has not timed out; a timed-out coin earns nothing even
   * when it is within range.
   */
  lemma {:induction false} PickDroppedExact(t: Table<CoinId, DroppedCoin>, ks: seq<CoinId>, px: real, py: real, now: int, n: nat)
    requires t.Valid() && Distinct(ks)
    ensures PickDropped(t, ks, px, py, now, n).1 == n + |DroppedInReach(t, ks, px, py, now)|
    decreases |ks|
  {
    if ks != [] {
      DistinctTail(ks);
      var k := ks[0];
      DroppedReachStep(t, ks, px, py, now);
      if k in t.vals && TimedOut(t.vals[k], now) {
        assert PickDropped(t, ks, px, py, now, n) == PickDropped(t.Delete(k), ks[1..], px, py, now, n);
        PickDroppedExact(t.Delete(k), ks[1..], px, py, now, n);
      } else if k in t.vals && InPickup(px, py, t.vals[k].x, t.vals[k].y) {
        assert PickDropped(t, ks, px, py, now, n) == PickDropped(t.Delete(k), ks[1..], px, py, now, n + 1);
        PickDroppedExact(t.Delete(k), ks[1..], px, py, now, n + 1);
      } else {
        assert PickDropped(t, ks, px, py, now, n) == PickDropped(t, ks[1..], px, py, now, n);
        PickDroppedExact(t, ks[1..], px, py, now, n);
      }
    }
  }

  /** How the paid-for set of `ks` relates to that of its tail, after the head's step. */
  lemma DroppedReachStep(t: Table<CoinId, DroppedCoin>, ks: seq<CoinId>, px: real, py: real, now: int)
    requires t.Valid() && Distinct(ks) && ks != []
    ensures var k := ks[0]; var all := DroppedInReach(t, ks, px, py, now);
      && (k in t.vals && TimedOut(t.vals[k], now) ==> all == DroppedInReach(t.Delete(k), ks[1..], px, py, now))
      && (k in t.vals && !TimedOut(t.vals[k], now) && InPickup(px, py, t.vals[k].x, t.vals[k].y) ==>
            |all| == 1 + |DroppedInReach(t.Delete(k), ks[1..], px, py, now)|)
      && (!(k in t.vals && (TimedOut(t.vals[k], now) || InPickup(px, py, t.vals[k].x, t.vals[k].y))) ==>
            all == DroppedInReach(t, ks[1..], px, py, now))
  {
    var k := ks[0];
    DistinctTail(ks);
    ReachHead(t, ks, px, py, now);
    ReachWithout(t, ks[1..], k, px, py, now);
  }

  /** The head of `ks` adds itself to the paid-for set of the tail exactly when it is paid for. */
  lemma ReachHead(t: Table<CoinId, DroppedCoin>, ks: seq<CoinId>, px: real, py: real, now: int)
    requires ks != [] && ks[0] !in ks[1..]
    ensures var k := ks[0]; var rest := DroppedInReach(t, ks[1..], px, py, now);
      && k !in rest
      && DroppedInReach(t, ks, px, py, now)
         == rest + if k in t.vals && !TimedOut(t.vals[k], now) && InPickup(px, py, t.vals[k].x, t.vals[k].y) then {k} else {}
  {
    assert forall j :: j in ks <==> j == ks[0] || j in ks[1..];
  }

  /** Deleting a coin outside `ks` leaves the paid-for set of `ks` as it was. */
  lemma ReachWithout(t: Table<CoinId, DroppedCoin>, ks: seq<CoinId>, k: CoinId, px: real, py: real, now: int)
    requires k !in ks
    ensures DroppedInReach(t.Delete(k), ks, px, py, now) == DroppedInReach(t, ks, px, py, now)
  {
    forall j | j in ks ensures j in t.Delete(k).vals <==> j in t.vals {
    }
  }

  /**
   * The count against the table: the coins paid for are at most the coins
   * removed, and exactly as many when none of `ks` had timed out.
   */
  lemma {:induction false} PickDroppedCounts(t: Table<CoinId, DroppedCoin>, ks: seq<CoinId>, px: real, py: real, now: int, n: nat)
    requires t.Valid()
    ensures var r := PickDropped(t, ks, px, py, now, n);
      && r.1 - n <= t.Size() - r.0.Size()
      && ((forall k :: k in ks && k in t.vals ==> !TimedOut(t.vals[k], now)) ==> r.1 - n == t.Size() - r.0.Size())
    decreases |ks|
  {
    if ks != [] {
      var k := ks[0];
      if k in t.vals && TimedOut(t.vals[k], now) {
        PickDroppedCounts(t.Delete(k), ks[1..], px, py, now, n);
      } else if k in t.vals && InPickup(px, py, t.vals[k].x, t.vals[k].y) {
        PickDroppedCounts(t.Delete(k), ks[1..], px, py, now, n + 1);
      } else {
        PickDroppedCounts(t, ks[1..], px, py, now, n);
      }
    }
  }

  /**
   * `checkPickup(player)`: both loops run over the current coins, and the
   * player gains one coin per coin collected; nothing else about the player changes.
   */
  function CheckPickup(coins: Table<CoinId, Coin>, drops: Table<CoinId, DroppedCoin>, p: Player, now: int)
    : (r: (Table<CoinId, Coin>, Table<CoinId, DroppedCoin>, Player))
    requires coins.Valid() && drops.Valid()
    ensures r.0.Valid() && r.1.Valid()
    ensures r.2 == p.(coins := r.2.coins) && r.2.coins >= p.coins
  {
    var ambient := PickAmbient(coins, coins.keys, p.x, p.y, 0);
    var dropped := PickDropped(drops, drops.keys, p.x, p.y, now, 0);
    (ambient.0, dropped.0, p.(coins := p.coins + ambient.1 + dropped.1))
  }

  /** Coins are conserved by pickup: every ambient coin that disappears lands in the player's purse. */
  lemma PickupConservesCoins(coins: Table<CoinId, Coin>, drops: Table<CoinId, DroppedCoin>, p: Player, now: int)
    requires coins.Valid() && drops.Valid()
    requires forall k :: k in drops.vals ==> !TimedOut(drops.vals[k], now)
    ensures var r := CheckPickup(coins, drops, p, now);
      r.2.coins + r.0.Size() + r.1.Size() == p.coins + coins.Size() + drops.Size()
  {
    PickAmbientEffect(coins, coins.keys, p.x, p.y, 0);
    PickDroppedCounts(drops, drops.keys, p.x, p.y, now, 0);
  }

  /**
   * The player's new balance: one coin per ambient coin in range and one per
   * dropped coin in range that has not timed out.
   */
  lemma PickupCredits(coins: Table<CoinId, Coin>, drops: Table<CoinId, DroppedCoin>, p: Player, now: int)
    requires coins.Valid() && drops.Valid()
    ensures var r := CheckPickup(coins, drops, p, now);
      r.2.coins == p.coins
        + |set k | k in coins.vals && InPickup(p.x, p.y, coins.vals[k].x, coins.vals[k].y)|
        + |set k | k in drops.vals && !TimedOut(drops.vals[k], now) && InPickup(p.x, p.y, drops.vals[k].x, drops.vals[k].y)|
  {
    PickAmbientCount(coins, coins.keys, p.x, p.y, 0);
    PickDroppedExact(drops, drops.keys, p.x, p.y, now, 0);
    assert AmbientInReach(coins, coins.keys, p.x, p.y)
        == set k | k in coins.vals && InPickup(p.x, p.y, coins.vals[k].x, coins.vals[k].y);
    assert DroppedInReach(drops, drops.keys, p.x, p.y, now)
        == set k | k in drops.vals && !TimedOut(drops.vals[k], now) && InPickup(p.x, p.y, drops.vals[k].x, drops.vals[k].y);
  }

  /** Pickup only removes coins, so their number never grows. */
  lemma PickupShrinks(coins: Table<CoinId, Coin>, drops: Table<CoinId, DroppedCoin>, p: Player, now: int)
    requires coins.Valid() && drops.Valid()
    ensures var r := CheckPickup(coins, drops, p, now);
      && r.0.vals.Keys <= coins.vals.Keys && r.1.vals.Keys <= drops.vals.Keys
      && r.0.Size() <= coins.Size()
  {
    PickAmbientEffect(coins, coins.keys, p.x, p.y, 0);
    PickDroppedKeeps(drops, drops.keys, p.x, p.y, now, 0);
  }

  /** The drops of `r1` and then those of `r2` are the drops of `r1 + r2`. */
  lemma {:induction false} EnemyDropsAppend(d: Drops, r1: seq<DropRequest>, r2: seq<DropRequest>, now: int, draw: nat -> Roll)
    requires DropsValid(d)
    ensures EnemyDrops(d, r1 + r2, now, draw) == EnemyDrops(EnemyDrops(d, r1, now, draw), r2, now, draw)
    decreases |r1|
  {
    if r1 == [] {
      assert r1 + r2 == r2;
    } else {
      assert (r1 + r2)[0] == r1[0] && (r1 + r2)[1..] == r1[1..] + r2;
      EnemyDropsAppend(EnemyDrop(d, r1[0], now, draw), r1[1..], r2, now, draw);
    }
  }
}
